/** PBEParametersGenerator: the state shared by the password-based key generators (password,
    salt, iteration count) and the three ways of turning a password into bytes. A password is a
    CCharArray, here its chars (bv16); its length is at most 2^30 - 1, because the array is a
    byte buffer of two bytes per char. A null password is None. */
module PBE {
  import opened Errors
  import opened JavaInt
  import opened SecureBytes
  import Crypto

  /** The most chars a CCharArray can hold: INT_MAX bytes, two per char. */
  const MAX_CHARS: nat := INT_MAX / 2

  /** A password as a CCharArray can hold it. */
  predicate Holds(password: Option<seq<bv16>>) {
    password.Some? ==> |password.value| <= MAX_CHARS
  }

  /** The fields set by init. */
  datatype Generator = Generator(password: CByteArray, salt: CByteArray, iterationCount: int32)

  /** init(password, salt, iterationCount): read-only copies of password and salt, so that the
      caller may zero its own arrays, and the iteration count as given. */
  function Init(password: CByteArray, salt: CByteArray, iterationCount: int32): (g: Generator)
    ensures g.password.store.readOnly && g.password.Bytes() == password.Bytes()
    ensures g.salt.store.readOnly && g.salt.Bytes() == salt.Bytes()
    ensures g.iterationCount == iterationCount
  {
    Generator(ToReadOnly(password), ToReadOnly(salt), iterationCount)
  }

  /** The stored password cannot be changed through the generator, and the caller zeroing its
      array leaves the stored copy intact. */
  lemma InitCopies(password: CByteArray, salt: CByteArray, iterationCount: int32, i: int, v: bv8)
    ensures Set(Init(password, salt, iterationCount).password, i, v) == Err(ReadOnly)
    ensures Set(Init(password, salt, iterationCount).salt, i, v) == Err(ReadOnly)
    ensures var g := Init(password, salt, iterationCount);
            CByteArray(DirectArray.Zero(password.store)).Bytes() != password.Bytes()
            ==> g.password.Bytes() == password.Bytes()
                && g.password.Bytes() != CByteArray(DirectArray.Zero(password.store)).Bytes()
  {
  }

  /** PKCS5PasswordToBytes: one byte per char, the char's low 8 bits; null gives an empty
      array. */
  method PKCS5PasswordToBytes(password: Option<seq<bv16>>) returns (r: CByteArray)
    requires Holds(password)
    ensures password.None? ==> r.Length() == 0
    ensures password.Some? ==> r.Length() == |password.value|
                               && forall i :: 0 <= i < r.Length() ==> r.Bytes()[i] == Crypto.Low(password.value[i])
    ensures !r.store.readOnly
  {
    if password.None? {
      return SecureBytes.New(0).value;
    }
    var p := password.value;
    var bytes := SecureBytes.New(|p|).value;
    var i := 0;
    while i < bytes.Length()
      invariant 0 <= i <= bytes.Length() == |p| && !bytes.store.readOnly
      invariant forall k :: 0 <= k < i ==> bytes.Bytes()[k] == Crypto.Low(p[k])
    {
      bytes := Set(bytes, i, Crypto.Low(p[i])).value;
      i := i + 1;
    }
    return bytes;
  }

  /** A password of chars below 256 (Latin-1) is recovered from its PKCS5 bytes. */
  lemma PKCS5Recovers(p: seq<bv16>, bytes: seq<bv8>)
    requires |bytes| == |p| && forall i :: 0 <= i < |p| ==> bytes[i] == Crypto.Low(p[i])
    requires forall i :: 0 <= i < |p| ==> p[i] < 0x100
    ensures forall i :: 0 <= i < |p| ==> bytes[i] as bv16 == p[i]
  {
    forall i | 0 <= i < |p|
      ensures bytes[i] as bv16 == p[i]
    {
      LowOfSmall(p[i]);
    }
  }

  /** A char below 256 is its low byte. */
  lemma LowOfSmall(c: bv16)
    requires c < 0x100
    ensures Crypto.Low(c) as bv16 == c
  {
  }

  /** PKCS5PasswordToUTF8Bytes: the encoder's bytes, or an empty array for null. The UTF-8
      encoder (CUtils.toUTF8ByteArray) is a parameter. */
  function PKCS5PasswordToUTF8Bytes(password: Option<seq<bv16>>, utf8: seq<bv16> -> seq<bv8>): (r: seq<bv8>)
    ensures password.None? ==> r == []
    ensures password.Some? ==> r == utf8(password.value)
  {
    if password.Some? then utf8(password.value) else []
  }

  /** PKCS12PasswordToBytes: for a non-empty password, a new array of (n + 1) * 2 bytes (an
      int product) holding each char big-endian followed by two zero bytes; null or empty
      gives an empty array. At n = 2^30 - 1 the size wraps to a negative int and the
      allocation fails. */
  method PKCS12PasswordToBytes(password: Option<seq<bv16>>) returns (r: Result<CByteArray>)
    requires Holds(password)
    ensures password.None? || password.value == [] ==> r.Ok? && r.value.Length() == 0
    ensures password.Some? && |password.value| == MAX_CHARS ==> r == Err(IllegalArgument)
    ensures password.Some? && 0 < |password.value| < MAX_CHARS ==>
              r.Ok? && r.value.Length() == 2 * (|password.value| + 1)
              && (forall i :: 0 <= i < |password.value| ==>
                    r.value.Bytes()[2 * i] == Crypto.High(password.value[i])
                    && r.value.Bytes()[2 * i + 1] == Crypto.Low(password.value[i]))
              && r.value.Bytes()[2 * |password.value|] == 0 && r.value.Bytes()[2 * |password.value| + 1] == 0
  {
    if password.None? || |password.value| == 0 {
      return Ok(SecureBytes.New(0).value);
    }
    var p := password.value;
    var n := |p|;
    var size := Wrap32(Wrap32(n + 1) * 2);
    var made := SecureBytes.New(size);
    if made.Err? {
      return Err(made.error);
    }
    var bytes := made.value;
    var i := 0;
    while i < n
      invariant 0 <= i <= n && bytes.Length() == 2 * (n + 1) && !bytes.store.readOnly
      invariant forall k :: 0 <= k < i ==>
                  bytes.Bytes()[2 * k] == Crypto.High(p[k]) && bytes.Bytes()[2 * k + 1] == Crypto.Low(p[k])
      invariant bytes.Bytes()[2 * n] == 0 && bytes.Bytes()[2 * n + 1] == 0
    {
      bytes := Set(bytes, i * 2, Crypto.High(p[i])).value;
      bytes := Set(bytes, i * 2 + 1, Crypto.Low(p[i])).value;
      i := i + 1;
    }
    return Ok(bytes);
  }

  /** The PKCS12 bytes are the big-endian packing of the password followed by a zero char:
      unpacking them gives the password and its terminator. */
  lemma PKCS12IsPackedWithTerminator(p: seq<bv16>, bytes: seq<bv8>)
    requires |bytes| == 2 * (|p| + 1)
    requires forall i :: 0 <= i < |p| ==> bytes[2 * i] == Crypto.High(p[i]) && bytes[2 * i + 1] == Crypto.Low(p[i])
    requires bytes[2 * |p|] == 0 && bytes[2 * |p| + 1] == 0
    ensures bytes == Crypto.Packed(p + [0])
    ensures Crypto.Unpacked(bytes) == p + [0]
  {
    var q := p + [0];
    forall i | 0 <= i < |q|
      ensures bytes[2 * i] == Crypto.Packed(q)[2 * i] && bytes[2 * i + 1] == Crypto.Packed(q)[2 * i + 1]
    {
      Crypto.PackedAt(q, i);
    }
    forall j | 0 <= j < |bytes|
      ensures bytes[j] == Crypto.Packed(q)[j]
    {
      var i := j / 2;
      assert j == 2 * i || j == 2 * i + 1;
    }
    Crypto.UnpackPacked(q);
  }
}
