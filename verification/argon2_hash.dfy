/** H', the variable-length hash of Argon2 (RFC 9106 section 3.3), as Argon2BytesGenerator.hash
    computes it from BLAKE2b digests. The digest itself is a parameter. */
module Argon2Hash {
  import opened JavaInt
  import opened CUtils

  /** BLAKE2b with an output length in bytes: `new Blake2bDigest(8 * n)`, update with the
      message, doFinal. Only the length of its result is assumed. */
  type Blake = f: (nat, seq<bv8>) -> seq<bv8> | forall n: nat, m: seq<bv8> :: |f(n, m)| == n
    witness (n: nat, m: seq<bv8>) => seq(n, _ => 0 as bv8)

  /** A non-negative length as the four little-endian bytes intToLittleEndian writes. */
  function Le32(n: nat): (r: seq<bv8>)
    ensures |r| == 4
  {
    IntToLE((n % TWO_32) as bv32)
  }

  /** The number of 32-byte pieces taken from full 64-byte digests when outLen > 64:
      `(outLen + 31) / 32 - 2`. */
  function Pieces(outLen: nat): (r: nat)
    requires outLen > 64
    ensures r >= 1 && 32 < outLen - 32 * r <= 64
  {
    (outLen + 31) / 32 - 2
  }

  /** From V_i on, with k pieces still to take: the first half of V_i, then the next digest;
      after the last piece comes the final digest of `last` bytes. */
  function Chain(blake: Blake, v: seq<bv8>, k: nat, last: nat): (r: seq<bv8>)
    requires |v| == 64 && k >= 1
    ensures |r| == 32 * k + last
    decreases k
  {
    v[..32] + (if k == 1 then blake(last, v) else Chain(blake, blake(64, v), k - 1, last))
  }

  /** H'^T(X) of RFC 9106 section 3.3: one digest of length T when T <= 64; otherwise
      V_1 = H^64(LE32(T) || X), V_{i+1} = H^64(V_i), and the output is the first 32 bytes of
      V_1 .. V_r followed by the whole of the last digest, of T - 32 r bytes. */
  function HPrimeSpec(blake: Blake, outLen: nat, input: seq<bv8>): (h: seq<bv8>)
    ensures |h| == outLen
  {
    var x := Le32(outLen) + input;
    if outLen <= 64 then blake(outLen, x)
    else Chain(blake, blake(64, x), Pieces(outLen), outLen - 32 * Pieces(outLen))
  }

  /** V_{j+1}: the digest chain started at V_1 = v, taken j times further. */
  function Iter(blake: Blake, v: seq<bv8>, j: nat): (r: seq<bv8>)
    requires |v| == 64
    ensures |r| == 64
  {
    if j == 0 then v else blake(64, Iter(blake, v, j - 1))
  }

  /** The first halves of V_1 .. V_j, in order. */
  function Firsts(blake: Blake, v: seq<bv8>, j: nat): (r: seq<bv8>)
    requires |v| == 64
    ensures |r| == 32 * j
  {
    if j == 0 then [] else Firsts(blake, v, j - 1) + Iter(blake, v, j - 1)[..32]
  }

  /** r of hash as written: `((outLen + 31) / 32) - 2` on ints. Up to INT_MAX - 31 it is the
      piece count of H'; above, outLen + 31 wraps to a negative int and r is negative. */
  function PiecesAsWritten(outLen: int32): (r: int)
    requires outLen > 64
    ensures outLen <= INT_MAX - 31 ==> r == Pieces(outLen)
    ensures outLen > INT_MAX - 31 ==> r < 0
  {
    IntDiv(Wrap32(outLen + 31), 32) - 2
  }

  /** lastLength of hash as written: `outLen - 32 * r` on ints. Up to INT_MAX - 31 it is the
      33 to 64 bytes of the last digest of H'; above, the wraps leave 2 to 33 bytes. */
  function LastLength(outLen: int32): (n: int32)
    requires outLen > 64
    ensures outLen <= INT_MAX - 31 ==> n == outLen - 32 * Pieces(outLen)
    ensures outLen == INT_MAX - 30 ==> n == 33
    ensures outLen > INT_MAX - 30 ==> n == outLen - (INT_MAX - 31)
  {
    var r := PiecesAsWritten(outLen);
    if outLen <= INT_MAX - 31 then
      PiecesBelowWrap(outLen);
      Wrap32(outLen - Wrap32(32 * r))
    else
      LastLengthWrapped(outLen);
      Wrap32(outLen - Wrap32(32 * r))
  }

  lemma PiecesBelowWrap(outLen: int32)
    requires 64 < outLen <= INT_MAX - 31
    ensures 32 * Pieces(outLen) <= outLen
  {
  }

  /** Above INT_MAX - 31: outLen + 31 wraps to outLen + 31 - 2^32, r is -(2^26 + 1) or, at
      INT_MAX - 30 where the quotient is exact, -(2^26 + 2), and 32 * r wraps back. */
  lemma LastLengthWrapped(outLen: int32)
    requires outLen > INT_MAX - 31
    ensures outLen == INT_MAX - 30 ==>
              PiecesAsWritten(outLen) == -0x400_0002 && Wrap32(outLen - Wrap32(32 * -0x400_0002)) == 33
    ensures outLen > INT_MAX - 30 ==>
              PiecesAsWritten(outLen) == -0x400_0001 && Wrap32(outLen - Wrap32(32 * -0x400_0001)) == outLen - (INT_MAX - 31)
  {
    var a := Wrap32(outLen + 31);
    assert a == outLen + 31 - TWO_32;
    var ua: int := -(a as int);
    if outLen == INT_MAX - 30 {
      assert ua == 0x8000_0000;
      assert ua / 32 == 0x400_0000;
    } else {
      assert 0x8000_0000 - 30 <= ua < 0x8000_0000;
      assert ua / 32 == 0x3FF_FFFF;
    }
    assert Wrap32(32 * -0x400_0002) == 0x7FFF_FFC0;
    assert Wrap32(32 * -0x400_0001) == 0x7FFF_FFE0;
  }

  /** hash(input, out, outOff, outLen) as written: the bytes it writes from outOff on. Up to
      INT_MAX - 31 they are H'^outLen of RFC 9106. Above, r is negative, the loop makes no
      pass, and only the first half of V_1 and a last digest of LastLength(outLen) bytes are
      written: 34 to 65 bytes where outLen were promised. */
  function Hash(blake: Blake, outLen: int32, input: seq<bv8>): (h: seq<bv8>)
    requires outLen >= 1
    ensures outLen <= INT_MAX - 31 ==> h == HPrimeSpec(blake, outLen, input)
    ensures outLen > INT_MAX - 31 ==> |h| == 32 + LastLength(outLen) && 34 <= |h| <= 65
  {
    var x := Le32(outLen) + input;
    if outLen <= 64 then blake(outLen, x)
    else
      var r := PiecesAsWritten(outLen);
      Chain(blake, blake(64, x), if r >= 1 then r else 1, LastLength(outLen))
  }

  /** At outLen = INT_MAX hash computes r = -67108865 and lastLength = 31, and writes 63
      bytes. */
  lemma HashAtIntMax(blake: Blake, input: seq<bv8>)
    ensures PiecesAsWritten(INT_MAX) == -67108865 && LastLength(INT_MAX) == 31
    ensures |Hash(blake, INT_MAX, input)| == 63
  {
  }

  /** hash(input, out, outOff, outLen), built the way the source builds it: V_1, then the loop
      over i = 2 .. r, then the last digest of lastLength bytes. */
  method HPrime(blake: Blake, outLen: int32, input: seq<bv8>) returns (out: seq<bv8>)
    requires outLen >= 1
    ensures out == Hash(blake, outLen, input)
    ensures outLen <= INT_MAX - 31 ==> out == HPrimeSpec(blake, outLen, input) && |out| == outLen
  {
    var x := Le32(outLen) + input;
    if outLen <= 64 {
      out := blake(outLen, x);
      return;
    }
    var r := PiecesAsWritten(outLen);
    out := TakePieces(blake, blake(64, x), r, LastLength(outLen));
  }

  /** The loop of hash once V_1 is known: the first half of V_1 .. V_r, each digest made from
      the one before, then the final digest of `last` bytes made from V_r; for r < 2 the loop
      makes no pass and the final digest is made from V_1. */
  method TakePieces(blake: Blake, v1: seq<bv8>, r: int, last: nat) returns (out: seq<bv8>)
    requires |v1| == 64
    ensures out == Chain(blake, v1, if r >= 1 then r else 1, last)
  {
    var k: nat := if r >= 1 then r else 1;
    var buffer := v1;
    out := buffer[..32];
    assert out == Firsts(blake, v1, 1) by { AppendEmpty(out); }
    var i := 2;
    while i <= r
      invariant 2 <= i <= k + 1
      invariant buffer == Iter(blake, v1, i - 2) && out == Firsts(blake, v1, i - 1)
    {
      buffer := blake(64, buffer);
      out := out + buffer[..32];
      i := i + 1;
    }
    ChainIsFirsts(blake, v1, k, last);
    out := out + blake(last, buffer);
  }

  lemma AppendEmpty(a: seq<bv8>)
    ensures [] + a == a
  {
  }

  lemma AppendAssoc(a: seq<bv8>, b: seq<bv8>, c: seq<bv8>)
    ensures a + (b + c) == (a + b) + c
  {
  }

  /** Starting the chain one digest later is the same as taking one more step. */
  lemma {:induction false} IterShift(blake: Blake, v: seq<bv8>, j: nat)
    requires |v| == 64
    ensures Iter(blake, v, j + 1) == Iter(blake, blake(64, v), j)
    decreases j
  {
    if j > 0 {
      IterShift(blake, v, j - 1);
    }
  }

  /** The first halves from V_1 on are the first half of V_1 followed by those from V_2 on. */
  lemma {:induction false} FirstsShift(blake: Blake, v: seq<bv8>, j: nat)
    requires |v| == 64
    ensures Firsts(blake, v, j + 1) == v[..32] + Firsts(blake, blake(64, v), j)
    decreases j
  {
    if j == 0 {
      AppendEmpty(v[..32]);
    } else {
      var w := blake(64, v);
      var piece := Iter(blake, w, j - 1)[..32];
      calc {
        Firsts(blake, v, j + 1);
        Firsts(blake, v, j) + Iter(blake, v, j)[..32];
        { FirstsShift(blake, v, j - 1); IterShift(blake, v, j - 1); }
        (v[..32] + Firsts(blake, w, j - 1)) + piece;
        { AppendAssoc(v[..32], Firsts(blake, w, j - 1), piece); }
        v[..32] + (Firsts(blake, w, j - 1) + piece);
        v[..32] + Firsts(blake, w, j);
      }
    }
  }

  /** The chain is the first halves of V_1 .. V_r followed by the final digest made from V_r. */
  lemma {:induction false} ChainIsFirsts(blake: Blake, v: seq<bv8>, r: nat, last: nat)
    requires |v| == 64 && r >= 1
    ensures Chain(blake, v, r, last) == Firsts(blake, v, r) + blake(last, Iter(blake, v, r - 1))
    decreases r
  {
    if r == 1 {
      AppendEmpty(v[..32]);
    } else {
      var w := blake(64, v);
      var tail := blake(last, Iter(blake, w, r - 2));
      calc {
        Chain(blake, v, r, last);
        v[..32] + Chain(blake, w, r - 1, last);
        { ChainIsFirsts(blake, w, r - 1, last); }
        v[..32] + (Firsts(blake, w, r - 1) + tail);
        { AppendAssoc(v[..32], Firsts(blake, w, r - 1), tail); }
        (v[..32] + Firsts(blake, w, r - 1)) + tail;
        { FirstsShift(blake, v, r - 1); IterShift(blake, v, r - 2); }
        Firsts(blake, v, r) + blake(last, Iter(blake, v, r - 1));
      }
    }
  }
}
