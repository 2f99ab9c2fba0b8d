/** XSalsaTools: one-shot XSalsa20 encryption and decryption of a buffer. Each call checks the
    key length, makes a fresh XSalsa20 engine, initialises it with the key and the 24-byte
    nonce, runs processBytes once, and zeroes the engine whatever happened. */
module XSalsaTools {
  import opened Errors
  import opened JavaInt
  import opened SecureBytes
  import opened SalsaCounter
  import opened SalsaEngine
  import opened SalsaStream

  const KEY_LENGTH_BYTES: nat := 32
  const NONCE_LENGTH_BYTES: nat := 24
  const MAC_LENGTH_BYTES: nat := 16

  /** No key material is left in an engine: keystream block and state words are all zero. */
  predicate Wiped(e: Engine) {
    (forall i :: 0 <= i < |e.keyStream| ==> e.keyStream[i] == 0)
    && (forall i :: 0 <= i < |e.state.words| ==> e.state.words[i] == 0)
  }

  /** What a call leaves behind: its result, and the engine after the final zero(). The engine
      is absent when the key check failed before any engine was made. */
  datatype Call = Call(result: Result<CByteArray>, engine: Option<Engine>)

  /** A fresh XSalsa20 engine initialised with a key parameter and a nonce. */
  function Keyed(key: seq<bv8>, nonce: seq<bv8>): (r: Result<Engine>)
    ensures r.Ok? <==> |key| == KEY_LENGTH_BYTES && |nonce| == NONCE_LENGTH_BYTES
    ensures r.Err? ==> r.error == IllegalArgument
    ensures r.Ok? ==> Valid(r.value) && Consistent(r.value) && r.value.initialised
                      && Position(r.value) == 0 && r.value.limit == NO_BYTES
  {
    Init(NewXSalsa(), ParametersWithIV(Some(KeyParameter(key)), Some(nonce)))
  }

  /** The common body: key check; engine; nonce parameter (already read or sliced by the
      caller, which may fail); init; the output buffer (given, or allocated after init);
      processBytes; zero(). After a failed processBytes the residue is the engine as it was
      before the call, wiped. */
  function Run(key: CByteArray, nonce: Result<seq<bv8>>, input: CByteArray, inOff: int32, len: int32,
               out: Result<CByteArray>, outOff: int32): (c: Call)
    ensures c.engine.Some? <==> key.Length() == KEY_LENGTH_BYTES
    ensures key.Length() != KEY_LENGTH_BYTES ==> c.result == Err(IllegalArgument)
    ensures c.engine.Some? ==> Wiped(c.engine.value)
    ensures c.result.Ok? ==> out.Ok? && c.result.value.Length() == out.value.Length()
  {
    if key.Length() != KEY_LENGTH_BYTES then Call(Err(IllegalArgument), None)
    else if nonce.Err? then Call(Err(nonce.error), Some(Zero(NewXSalsa())))
    else
      var e := Keyed(key.Bytes(), nonce.value);
      if e.Err? then Call(Err(e.error), Some(Zero(NewXSalsa())))
      else if out.Err? then Call(Err(out.error), Some(Zero(e.value)))
      else
        var r := ProcessBytes(e.value, input, inOff, len, out.value, outOff);
        if r.Err? then Call(Err(r.error), Some(Zero(e.value)))
        else Call(Ok(r.value.1), Some(Zero(r.value.0)))
  }

  /** encrypt(key, nonce, input, out, offset, length): input[0..length) encrypted into
      out[offset..offset+length). */
  function Encrypt(key: CByteArray, nonce: CByteArray, input: CByteArray, out: CByteArray, offset: int32, length: int32)
    : (c: Call)
    ensures key.Length() != KEY_LENGTH_BYTES ==> c.result == Err(IllegalArgument)
    ensures c.engine.Some? <==> key.Length() == KEY_LENGTH_BYTES
    ensures c.engine.Some? ==> Wiped(c.engine.value)
    ensures c.result.Ok? ==> c.result.value.Length() == out.Length()
  {
    Run(key, Ok(nonce.Bytes()), input, 0, length, Ok(out), offset)
  }

  /** encrypt(key, nonce, nonceOffset, nonceLength, cleartext, out, outOffset): the nonce is the
      given slice of a byte[] and the whole cleartext is encrypted into the byte[] out. */
  function EncryptBytes(key: CByteArray, nonce: seq<bv8>, nonceOffset: int32, nonceLength: int32,
                        cleartext: CByteArray, out: CByteArray, outOffset: int32): (c: Call)
    requires cleartext.Length() <= INT_MAX
    ensures key.Length() != KEY_LENGTH_BYTES ==> c.result == Err(IllegalArgument)
    ensures c.engine.Some? <==> key.Length() == KEY_LENGTH_BYTES
    ensures c.engine.Some? ==> Wiped(c.engine.value)
    ensures c.result.Ok? ==> c.result.value.Length() == out.Length()
  {
    Run(key, NonceSlice(nonce, nonceOffset, nonceLength), cleartext, 0, cleartext.Length() as int32, Ok(out), outOffset)
  }

  /** `new ParametersWithIV(kp, nonce, nonceOffset, nonceLength)`: a read-only copy of the slice. */
  function NonceSlice(nonce: seq<bv8>, offset: int32, length: int32): (r: Result<seq<bv8>>)
    ensures r.Ok? <==> 0 <= length && 0 <= offset && offset + length <= |nonce|
    ensures r.Ok? ==> r.value == nonce[offset..offset + length]
  {
    var b :- ReadOnlySlice(nonce, offset, length);
    Ok(b.Bytes())
  }

  /** decrypt(key, nonce, offset, length, input, out): input[offset..offset+length) decrypted
      into out[0..length). */
  function Decrypt(key: CByteArray, nonce: CByteArray, offset: int32, length: int32, input: CByteArray, out: CByteArray)
    : (c: Call)
    ensures key.Length() != KEY_LENGTH_BYTES ==> c.result == Err(IllegalArgument)
    ensures c.engine.Some? <==> key.Length() == KEY_LENGTH_BYTES
    ensures c.engine.Some? ==> Wiped(c.engine.value)
    ensures c.result.Ok? ==> c.result.value.Length() == out.Length()
  {
    Run(key, Ok(nonce.Bytes()), input, offset, length, Ok(out), 0)
  }

  /** decrypt(key, nonce, nonceOffset, nonceLength, ciphertext, offset, length): a new buffer
      of exactly length bytes, allocated after init, receives the plaintext. */
  function DecryptBytes(key: CByteArray, nonce: seq<bv8>, nonceOffset: int32, nonceLength: int32,
                        ciphertext: CByteArray, offset: int32, length: int32): (c: Call)
    ensures key.Length() != KEY_LENGTH_BYTES ==> c.result == Err(IllegalArgument)
    ensures c.engine.Some? <==> key.Length() == KEY_LENGTH_BYTES
    ensures c.engine.Some? ==> Wiped(c.engine.value)
    ensures c.result.Ok? ==> c.result.value.Length() == length
  {
    Run(key, NonceSlice(nonce, nonceOffset, nonceLength), ciphertext, offset, length, SecureBytes.New(length), 0)
  }

  /** A freshly keyed engine processes any range inside a writable output. */
  lemma KeyedProcesses(e: Engine, input: CByteArray, inOff: int32, len: int32, out: CByteArray, outOff: int32)
    requires Valid(e) && Consistent(e) && e.initialised && e.limit == NO_BYTES
    requires 0 <= inOff && 0 <= len && inOff + len <= input.Length()
    requires 0 <= outOff && outOff + len <= out.Length() && !out.store.readOnly
    ensures ProcessBytes(e, input, inOff, len, out, outOff).Ok?
  {
    SalsaSized();
    KeyedBySalsa(e, e.state.words);
    ProcessBytesAdvances(SALSA, e, e.state.words, input, inOff, len, out, outOff);
  }

  /** With a 32-byte key, a 24-byte nonce and ranges inside a writable output, the call is
      exactly one processBytes on the freshly keyed engine. */
  lemma RunProcesses(key: CByteArray, nonce: seq<bv8>, input: CByteArray, inOff: int32, len: int32,
                     out: CByteArray, outOff: int32)
    requires key.Length() == KEY_LENGTH_BYTES && |nonce| == NONCE_LENGTH_BYTES
    requires 0 <= inOff && 0 <= len && inOff + len <= input.Length()
    requires 0 <= outOff && outOff + len <= out.Length() && !out.store.readOnly
    ensures var e := Keyed(key.Bytes(), nonce);
            e.Ok? && var r := ProcessBytes(e.value, input, inOff, len, out, outOff);
            r.Ok? && Run(key, Ok(nonce), input, inOff, len, Ok(out), outOff).result == Ok(r.value.1)
  {
    KeyedProcesses(Keyed(key.Bytes(), nonce).value, input, inOff, len, out, outOff);
  }

  /** On a freshly keyed engine, byte k of the written range is the keystream byte at position
      k xored with input byte inOff + k. */
  lemma KeyedWrites(e: Engine, input: CByteArray, inOff: int32, len: int32, out: CByteArray, outOff: int32, k: int)
    requires Valid(e) && Consistent(e) && e.initialised && e.limit == NO_BYTES && Position(e) == 0
    requires 0 <= inOff && 0 <= len && inOff + len <= input.Length()
    requires 0 <= outOff && outOff + len <= out.Length() && !out.store.readOnly && 0 <= k < len
    ensures var r := ProcessBytes(e, input, inOff, len, out, outOff);
            r.Ok? && Sized(SALSA)
            && r.value.1.Bytes()[outOff + k] == KeyByte(SALSA, e.rounds, e.state.words, k) ^ input.Bytes()[inOff + k]
  {
    SalsaSized();
    KeyedBySalsa(e, e.state.words);
    ProcessBytesWrites(SALSA, e, e.state.words, input, inOff, len, out, outOff, k);
  }

  /** On a freshly keyed engine, bytes of the output outside the range keep their value. */
  lemma KeyedLeaves(e: Engine, input: CByteArray, inOff: int32, len: int32, out: CByteArray, outOff: int32, j: int)
    requires Valid(e) && Consistent(e) && e.initialised && e.limit == NO_BYTES
    requires 0 <= inOff && 0 <= len && inOff + len <= input.Length()
    requires 0 <= outOff && outOff + len <= out.Length() && !out.store.readOnly
    requires 0 <= j < out.Length() && !(outOff <= j < outOff + len)
    ensures var r := ProcessBytes(e, input, inOff, len, out, outOff);
            r.Ok? && r.value.1.Bytes()[j] == out.Bytes()[j]
  {
    SalsaSized();
    KeyedBySalsa(e, e.state.words);
    ProcessBytesLeaves(SALSA, e, e.state.words, input, inOff, len, out, outOff, j);
  }

  /** On a freshly keyed engine, the output in front of the range keeps its value. */
  lemma KeyedKeepsPrefix(e: Engine, input: CByteArray, inOff: int32, len: int32, out: CByteArray, outOff: int32)
    requires Valid(e) && Consistent(e) && e.initialised && e.limit == NO_BYTES
    requires 0 <= inOff && 0 <= len && inOff + len <= input.Length()
    requires 0 <= outOff && outOff + len <= out.Length() && !out.store.readOnly
    ensures var r := ProcessBytes(e, input, inOff, len, out, outOff);
            r.Ok? && r.value.1.Bytes()[..outOff] == out.Bytes()[..outOff]
  {
    KeyedProcesses(e, input, inOff, len, out, outOff);
    var p := ProcessBytes(e, input, inOff, len, out, outOff).value.1;
    forall j | 0 <= j < outOff
      ensures p.Bytes()[j] == out.Bytes()[j]
    {
      KeyedLeaves(e, input, inOff, len, out, outOff, j);
    }
  }

  /** Decryption with any sized block function: processing the output again from the same
      freshly keyed engine gives back the input. */
  lemma SalsaRoundTrip(f: BlockFunction, e: Engine, input: CByteArray, len: int32, out1: CByteArray,
                       offset: int32, out2: CByteArray, k: int)
    requires Sized(f) && KeyedBy(f, e, e.state.words) && e.initialised && e.limit == NO_BYTES
    requires 0 <= len <= input.Length() && 0 <= offset && offset + len <= out1.Length()
    requires !out1.store.readOnly && len <= out2.Length() && !out2.store.readOnly && 0 <= k < len
    ensures var c := ProcessBytesBy(f, e, input, 0, len, out1, offset);
            c.Ok? && var d := ProcessBytesBy(f, e, c.value.1, offset, len, out2, 0);
            d.Ok? && d.value.1.Bytes()[k] == input.Bytes()[k]
  {
    ProcessBytesRoundTrip(f, e, e, e.state.words, input, 0, len, out1, offset, out2, 0, k);
  }

  /** On a freshly keyed engine, processing the output of a first pass gives back the input. */
  lemma KeyedRoundTrip(e: Engine, input: CByteArray, len: int32, out1: CByteArray, offset: int32,
                       out2: CByteArray, k: int)
    requires Valid(e) && Consistent(e) && e.initialised && e.limit == NO_BYTES
    requires 0 <= len <= input.Length() && 0 <= offset && offset + len <= out1.Length()
    requires !out1.store.readOnly && len <= out2.Length() && !out2.store.readOnly && 0 <= k < len
    ensures var c := ProcessBytes(e, input, 0, len, out1, offset);
            c.Ok? && var d := ProcessBytes(e, c.value.1, offset, len, out2, 0);
            d.Ok? && d.value.1.Bytes()[k] == input.Bytes()[k]
  {
    SalsaSized();
    KeyedBySalsa(e, e.state.words);
    SalsaRoundTrip(SALSA, e, input, len, out1, offset, out2, k);
  }

  /** With a 32-byte key, a 24-byte nonce and both ranges in bounds of a writable output,
      encrypt and decrypt succeed. */
  lemma CallsSucceed(key: CByteArray, nonce: CByteArray, input: CByteArray, out: CByteArray,
                     offset: int32, length: int32)
    requires key.Length() == KEY_LENGTH_BYTES && nonce.Length() == NONCE_LENGTH_BYTES
    requires 0 <= offset && 0 <= length && !out.store.readOnly
    ensures length <= input.Length() && offset + length <= out.Length() ==>
              Encrypt(key, nonce, input, out, offset, length).result.Ok?
    ensures offset + length <= input.Length() && length <= out.Length() ==>
              Decrypt(key, nonce, offset, length, input, out).result.Ok?
  {
    if length <= input.Length() && offset + length <= out.Length() {
      RunProcesses(key, nonce.Bytes(), input, 0, length, out, offset);
    }
    if offset + length <= input.Length() && length <= out.Length() {
      RunProcesses(key, nonce.Bytes(), input, offset, length, out, 0);
    }
  }

  /** Encrypt's result is what processBytes writes on the engine keyed with key and nonce. */
  lemma EncryptProcesses(key: CByteArray, nonce: CByteArray, input: CByteArray, out: CByteArray,
                         offset: int32, length: int32)
    requires key.Length() == KEY_LENGTH_BYTES && nonce.Length() == NONCE_LENGTH_BYTES
    requires 0 <= length <= input.Length() && 0 <= offset && offset + length <= out.Length()
    requires !out.store.readOnly
    ensures var e := Keyed(key.Bytes(), nonce.Bytes());
            e.Ok? && var r := ProcessBytes(e.value, input, 0, length, out, offset);
            r.Ok? && Encrypt(key, nonce, input, out, offset, length).result == Ok(r.value.1)
  {
    RunProcesses(key, nonce.Bytes(), input, 0, length, out, offset);
  }

  /** Bytes of out before or after the range encrypt writes keep their value. */
  lemma EncryptLeaves(key: CByteArray, nonce: CByteArray, input: CByteArray, out: CByteArray,
                      offset: int32, length: int32, j: int)
    requires key.Length() == KEY_LENGTH_BYTES && nonce.Length() == NONCE_LENGTH_BYTES
    requires 0 <= length <= input.Length() && 0 <= offset && offset + length <= out.Length()
    requires !out.store.readOnly && 0 <= j < out.Length() && !(offset <= j < offset + length)
    ensures var c := Encrypt(key, nonce, input, out, offset, length);
            c.result.Ok? && c.result.value.Bytes()[j] == out.Bytes()[j]
  {
    RunProcesses(key, nonce.Bytes(), input, 0, length, out, offset);
    KeyedLeaves(Keyed(key.Bytes(), nonce.Bytes()).value, input, 0, length, out, offset, j);
  }

  /** The bytes of out in front of the range encrypt writes keep their value. */
  lemma EncryptKeepsPrefix(key: CByteArray, nonce: CByteArray, input: CByteArray, out: CByteArray,
                           offset: int32, length: int32)
    requires key.Length() == KEY_LENGTH_BYTES && nonce.Length() == NONCE_LENGTH_BYTES
    requires 0 <= length <= input.Length() && 0 <= offset && offset + length <= out.Length()
    requires !out.store.readOnly
    ensures var c := Encrypt(key, nonce, input, out, offset, length);
            c.result.Ok? && c.result.value.Bytes()[..offset] == out.Bytes()[..offset]
  {
    RunProcesses(key, nonce.Bytes(), input, 0, length, out, offset);
    KeyedKeepsPrefix(Keyed(key.Bytes(), nonce.Bytes()).value, input, 0, length, out, offset);
  }

  /** decrypt(encrypt(x)) == x: decrypting the range that encrypt wrote, with the same key and
      nonce, gives back each input byte. */
  lemma RoundTrip(key: CByteArray, nonce: CByteArray, input: CByteArray, out1: CByteArray,
                  offset: int32, length: int32, out2: CByteArray, k: int)
    requires key.Length() == KEY_LENGTH_BYTES && nonce.Length() == NONCE_LENGTH_BYTES
    requires 0 <= length <= input.Length() && 0 <= offset && offset + length <= out1.Length()
    requires !out1.store.readOnly && length <= out2.Length() && !out2.store.readOnly
    requires 0 <= k < length
    ensures var c := Encrypt(key, nonce, input, out1, offset, length);
            c.result.Ok? && var d := Decrypt(key, nonce, offset, length, c.result.value, out2);
            d.result.Ok? && d.result.value.Bytes()[k] == input.Bytes()[k]
  {
    var e := Keyed(key.Bytes(), nonce.Bytes()).value;
    RunProcesses(key, nonce.Bytes(), input, 0, length, out1, offset);
    var c := ProcessBytes(e, input, 0, length, out1, offset).value.1;
    RunProcesses(key, nonce.Bytes(), c, offset, length, out2, 0);
    KeyedRoundTrip(e, input, length, out1, offset, out2, k);
  }

  /** The byte[] encrypt with the whole nonce as its slice computes what the buffer encrypt
      computes over the whole input. */
  lemma VariantsAgree(key: CByteArray, nonce: CByteArray, data: CByteArray, out: CByteArray)
    requires nonce.Length() <= INT_MAX && data.Length() <= INT_MAX
    ensures EncryptBytes(key, nonce.Bytes(), 0, nonce.Length() as int32, data, out, 0)
            == Encrypt(key, nonce, data, out, 0, data.Length() as int32)
  {
    assert nonce.Bytes()[0..nonce.Length()] == nonce.Bytes();
  }

  /** With a 32-byte key, init refuses a nonce that is not 24 bytes long, before any byte is
      processed, and the engine is still wiped. */
  lemma NonceChecked(key: CByteArray, nonce: CByteArray, input: CByteArray, out: CByteArray, offset: int32, length: int32)
    requires key.Length() == KEY_LENGTH_BYTES && nonce.Length() != NONCE_LENGTH_BYTES
    ensures var c := Encrypt(key, nonce, input, out, offset, length);
            c.result == Err(IllegalArgument) && c.engine.Some? && Wiped(c.engine.value)
    ensures var c := Decrypt(key, nonce, offset, length, input, out);
            c.result == Err(IllegalArgument) && c.engine.Some? && Wiped(c.engine.value)
  {
  }

  /** The slice of a whole nonce is the nonce. */
  lemma WholeNonce(nonce: seq<bv8>)
    requires |nonce| <= INT_MAX
    ensures NonceSlice(nonce, 0, |nonce| as int32) == Ok(nonce)
  {
    assert nonce[0..|nonce|] == nonce;
  }

  /** The byte[] decrypt of a whole buffer with a whole nonce is one processBytes into a new
      buffer of that length. */
  lemma DecryptBytesRuns(key: CByteArray, nonce: seq<bv8>, ciphertext: CByteArray, len: int32)
    requires key.Length() == KEY_LENGTH_BYTES && |nonce| == NONCE_LENGTH_BYTES
    requires 0 <= len <= ciphertext.Length()
    ensures var e := Keyed(key.Bytes(), nonce);
            e.Ok? && SecureBytes.New(len).Ok?
            && var r := ProcessBytes(e.value, ciphertext, 0, len, SecureBytes.New(len).value, 0);
            r.Ok? && DecryptBytes(key, nonce, 0, |nonce| as int32, ciphertext, 0, len).result == Ok(r.value.1)
  {
    WholeNonce(nonce);
    RunProcesses(key, nonce, ciphertext, 0, len, SecureBytes.New(len).value, 0);
  }

  /** The byte[] variants round-trip: decrypting, into a new buffer, the whole output the byte[]
      encrypt wrote from offset 0 gives back every byte of the cleartext. */
  lemma BytesRoundTrip(key: CByteArray, nonce: seq<bv8>, data: CByteArray, out: CByteArray, k: int)
    requires key.Length() == KEY_LENGTH_BYTES && |nonce| == NONCE_LENGTH_BYTES
    requires data.Length() == out.Length() && !out.store.readOnly && 0 <= k < data.Length() <= INT_MAX
    ensures var c := EncryptBytes(key, nonce, 0, |nonce| as int32, data, out, 0);
            c.result.Ok? && var d := DecryptBytes(key, nonce, 0, |nonce| as int32, c.result.value,
                                                  0, data.Length() as int32);
            d.result.Ok? && d.result.value.Bytes()[k] == data.Bytes()[k]
  {
    var len := data.Length() as int32;
    var e := Keyed(key.Bytes(), nonce).value;
    WholeNonce(nonce);
    RunProcesses(key, nonce, data, 0, len, out, 0);
    var c := ProcessBytes(e, data, 0, len, out, 0).value.1;
    DecryptBytesRuns(key, nonce, c, len);
    KeyedRoundTrip(e, data, len, out, 0, SecureBytes.New(len).value, k);
  }
}
