/** CUtils: little-endian packing of 32- and 64-bit words, string truncation and cloning. */
module CUtils {
  import opened Errors
  import opened DirectArray
  import opened SecureBytes

  /** intToLittleEndian(n): the four bytes of n, least significant first. */
  function IntToLE(n: bv32): (r: seq<bv8>)
    ensures |r| == 4
    ensures r[0] as bv32 == n & 0xFF && r[3] as bv32 == n >> 24
  {
    [(n & 0xFF) as bv8, ((n >> 8) & 0xFF) as bv8, ((n >> 16) & 0xFF) as bv8, (n >> 24) as bv8]
  }

  /** littleEndianToInt(bs, off): the word whose least significant byte is bs[off]. */
  function LEToInt(bs: seq<bv8>, off: nat): (r: bv32)
    requires off + 4 <= |bs|
    ensures r & 0xFF == bs[off] as bv32 && r >> 24 == bs[off + 3] as bv32
  {
    (bs[off] as bv32) | (bs[off + 1] as bv32 << 8) | (bs[off + 2] as bv32 << 16) | (bs[off + 3] as bv32 << 24)
  }

  /** Unpacking a packed word gives the word back. */
  lemma LEToIntOfIntToLE(n: bv32)
    ensures LEToInt(IntToLE(n), 0) == n
  {
  }

  /** Packing an unpacked word gives the four bytes back. */
  lemma IntToLEOfLEToInt(bs: seq<bv8>, off: nat)
    requires off + 4 <= |bs|
    ensures IntToLE(LEToInt(bs, off)) == bs[off..off + 4]
  {
  }

  /** intToLittleEndian(int[] ns, ...): the words packed one after another, 4 bytes each. */
  function IntsToLE(ns: seq<bv32>): (r: seq<bv8>)
    ensures |r| == 4 * |ns|
  {
    if |ns| == 0 then [] else IntToLE(ns[0]) + IntsToLE(ns[1..])
  }

  /** littleEndianToInt(bs, off, count): count words read 4 bytes apart from off. */
  function LEToInts(bs: seq<bv8>, off: nat, count: nat): (r: seq<bv32>)
    requires off + 4 * count <= |bs|
    ensures |r| == count
    decreases count
  {
    if count == 0 then [] else [LEToInt(bs, off)] + LEToInts(bs, off + 4, count - 1)
  }

  /** Word i of an unpacked range comes from bytes off + 4i .. off + 4i + 3. */
  lemma {:induction false} LEToIntsAt(bs: seq<bv8>, off: nat, count: nat, i: nat)
    requires off + 4 * count <= |bs| && i < count
    ensures LEToInts(bs, off, count)[i] == LEToInt(bs, off + 4 * i)
    decreases count
  {
    if i > 0 {
      LEToIntsAt(bs, off + 4, count - 1, i - 1);
    }
  }

  /** Bytes 4i .. 4i + 3 of a packed sequence are word i. */
  lemma {:induction false} IntsToLEAt(ns: seq<bv32>, i: nat)
    requires i < |ns|
    ensures IntsToLE(ns)[4 * i..4 * i + 4] == IntToLE(ns[i])
  {
    if i > 0 {
      IntsToLEAt(ns[1..], i - 1);
      assert IntsToLE(ns) == IntToLE(ns[0]) + IntsToLE(ns[1..]);
      assert IntsToLE(ns)[4 * i..4 * i + 4] == IntsToLE(ns[1..])[4 * (i - 1)..4 * (i - 1) + 4];
    }
  }

  /** The array conversions are inverse: unpacking what was packed gives the words back. */
  lemma {:induction false} LEToIntsOfIntsToLE(ns: seq<bv32>)
    ensures LEToInts(IntsToLE(ns), 0, |ns|) == ns
  {
    if |ns| > 0 {
      var bs := IntsToLE(ns);
      LEToIntsOfIntsToLE(ns[1..]);
      assert bs[4..] == IntsToLE(ns[1..]);
      LEToIntsShift(bs, 4, |ns| - 1);
      LEToIntOfIntToLE(ns[0]);
      assert bs[..4] == IntToLE(ns[0]);
      assert LEToInt(bs, 0) == LEToInt(bs[..4], 0);
    }
  }

  /** Reading from offset k of bs is reading from offset 0 of bs[k..]. */
  lemma {:induction false} LEToIntsShift(bs: seq<bv8>, k: nat, count: nat)
    requires k + 4 * count <= |bs|
    ensures LEToInts(bs, k, count) == LEToInts(bs[k..], 0, count)
    decreases count
  {
    if count > 0 {
      LEToIntsShift(bs, k + 4, count - 1);
      LEToIntsShift(bs[k..], 4, count - 1);
      assert bs[k..][4..] == bs[k + 4..];
    }
  }

  /** ...and packing what was unpacked gives the byte range back. */
  lemma {:induction false} IntsToLEOfLEToInts(bs: seq<bv8>, off: nat, count: nat)
    requires off + 4 * count <= |bs|
    ensures IntsToLE(LEToInts(bs, off, count)) == bs[off..off + 4 * count]
    decreases count
  {
    if count > 0 {
      IntsToLEOfLEToInts(bs, off + 4, count - 1);
      IntToLEOfLEToInt(bs, off);
      assert LEToInts(bs, off, count)[1..] == LEToInts(bs, off + 4, count - 1);
      assert bs[off..off + 4 * count] == bs[off..off + 4] + bs[off + 4..off + 4 * count];
    }
  }

  /** littleEndianToInt(bs, bOff, ns, nOff, count): count words unpacked from bs into
      ns[nOff..nOff+count]; a range outside either array raises the array index exception. */
  function DecodeInto(bs: seq<bv8>, bOff: int, ns: seq<bv32>, nOff: int, count: int): (r: Result<seq<bv32>>)
    ensures count <= 0 ==> r == Ok(ns)
    ensures count > 0 ==> (r.Ok? <==> 0 <= bOff && bOff + 4 * count <= |bs| && 0 <= nOff && nOff + count <= |ns|)
    ensures r.Ok? ==> |r.value| == |ns|
    ensures r.Ok? && count > 0 ==> r.value[nOff..nOff + count] == LEToInts(bs, bOff, count)
    ensures r.Ok? && count > 0 ==> r.value[..nOff] == ns[..nOff] && r.value[nOff + count..] == ns[nOff + count..]
  {
    if count <= 0 then Ok(ns)
    else if 0 <= bOff && bOff + 4 * count <= |bs| && 0 <= nOff && nOff + count <= |ns| then
      var r := ns[..nOff] + LEToInts(bs, bOff, count) + ns[nOff + count..];
      assert r[nOff..nOff + count] == LEToInts(bs, bOff, count);
      Ok(r)
    else Err(IndexOutOfBounds)
  }

  /** intToLittleEndian(ns, bs, off): all of ns packed into bs from off. */
  function EncodeInto(ns: seq<bv32>, bs: seq<bv8>, off: int): (r: Result<seq<bv8>>)
    ensures |ns| == 0 ==> r == Ok(bs)
    ensures |ns| > 0 ==> (r.Ok? <==> 0 <= off && off + 4 * |ns| <= |bs|)
    ensures r.Ok? ==> |r.value| == |bs|
    ensures r.Ok? && |ns| > 0 ==> LEToInts(r.value, off, |ns|) == ns
    ensures r.Ok? && |ns| > 0 ==> r.value[..off] == bs[..off] && r.value[off + 4 * |ns|..] == bs[off + 4 * |ns|..]
  {
    if |ns| == 0 then Ok(bs)
    else if 0 <= off && off + 4 * |ns| <= |bs| then
      var r := bs[..off] + IntsToLE(ns) + bs[off + 4 * |ns|..];
      assert r[off..off + 4 * |ns|] == IntsToLE(ns);
      LEToIntsShift(r, off, |ns|);
      assert r[off..][..4 * |ns|] == IntsToLE(ns);
      LEToIntsPrefix(r[off..], 4 * |ns|, |ns|);
      LEToIntsOfIntsToLE(ns);
      Ok(r)
    else Err(IndexOutOfBounds)
  }

  /** Unpacking only looks at the bytes it covers. */
  lemma {:induction false} LEToIntsPrefix(bs: seq<bv8>, n: nat, count: nat)
    requires 4 * count <= n <= |bs|
    ensures LEToInts(bs, 0, count) == LEToInts(bs[..n], 0, count)
  {
    forall i | 0 <= i < count
      ensures LEToInts(bs, 0, count)[i] == LEToInts(bs[..n], 0, count)[i]
    {
      LEToIntsAt(bs, 0, count, i);
      LEToIntsAt(bs[..n], 0, count, i);
    }
  }

  /** longToLittleEndian(n): the low word's four bytes at off, then the high word's at off + 4. */
  function LongToLE(n: bv64): (r: seq<bv8>)
    ensures |r| == 8
    ensures r[..4] == IntToLE((n & 0xFFFF_FFFF) as bv32) && r[4..] == IntToLE((n >> 32) as bv32)
  {
    IntToLE((n & 0xFFFF_FFFF) as bv32) + IntToLE((n >> 32) as bv32)
  }

  /** littleEndianToLong(bs, off): the low word from off, the high word from off + 4. */
  function LEToLong(bs: seq<bv8>, off: nat): (r: bv64)
    requires off + 8 <= |bs|
    ensures r & 0xFFFF_FFFF == LEToInt(bs, off) as bv64 && r >> 32 == LEToInt(bs, off + 4) as bv64
  {
    (LEToInt(bs, off + 4) as bv64 << 32) | (LEToInt(bs, off) as bv64)
  }

  /** littleEndianToLong(longToLittleEndian(n)) = n. */
  lemma LEToLongOfLongToLE(n: bv64)
    ensures LEToLong(LongToLE(n), 0) == n
  {
    LowWordOfLongToLE(n);
    HighWordOfLongToLE(n);
    JoinHalves(n);
  }

  lemma LowWordOfLongToLE(n: bv64)
    ensures LEToInt(LongToLE(n), 0) == (n & 0xFFFF_FFFF) as bv32
  {
    var lo := (n & 0xFFFF_FFFF) as bv32;
    LEToIntOfIntToLE(lo);
    assert LongToLE(n)[..4] == IntToLE(lo);
    LEToIntPrefix(LongToLE(n), 4, 0);
  }

  lemma HighWordOfLongToLE(n: bv64)
    ensures LEToInt(LongToLE(n), 4) == (n >> 32) as bv32
  {
    var hi := (n >> 32) as bv32;
    LEToIntOfIntToLE(hi);
    assert LongToLE(n)[4..] == IntToLE(hi);
    LEToIntSuffix(LongToLE(n), 4);
  }

  /** A word only depends on its own four bytes. */
  lemma LEToIntPrefix(bs: seq<bv8>, n: nat, off: nat)
    requires off + 4 <= n <= |bs|
    ensures LEToInt(bs, off) == LEToInt(bs[..n], off)
  {
    assert bs[..n][off] == bs[off] && bs[..n][off + 1] == bs[off + 1];
    assert bs[..n][off + 2] == bs[off + 2] && bs[..n][off + 3] == bs[off + 3];
  }

  lemma LEToIntSuffix(bs: seq<bv8>, k: nat)
    requires k + 4 <= |bs|
    ensures LEToInt(bs, k) == LEToInt(bs[k..], 0)
  {
    assert bs[k..][0] == bs[k] && bs[k..][1] == bs[k + 1];
    assert bs[k..][2] == bs[k + 2] && bs[k..][3] == bs[k + 3];
  }

  /** A 64-bit word is its high half shifted up, or-ed with its low half. */
  lemma JoinHalves(n: bv64)
    ensures (((n >> 32) as bv32) as bv64 << 32) | (((n & 0xFFFF_FFFF) as bv32) as bv64) == n
  {
  }

  /** longToLittleEndian(littleEndianToLong(bs, off)) = bs[off..off+8]. */
  lemma LongToLEOfLEToLong(bs: seq<bv8>, off: nat)
    requires off + 8 <= |bs|
    ensures LongToLE(LEToLong(bs, off)) == bs[off..off + 8]
  {
    var n := LEToLong(bs, off);
    assert (n & 0xFFFF_FFFF) as bv32 == LEToInt(bs, off);
    assert (n >> 32) as bv32 == LEToInt(bs, off + 4);
    IntToLEOfLEToInt(bs, off);
    IntToLEOfLEToInt(bs, off + 4);
  }

  /** The 64-bit array conversions used for Argon2 blocks: 8 bytes per word, low word first. */
  function LongsToLE(ns: seq<bv64>): (r: seq<bv8>)
    ensures |r| == 8 * |ns|
  {
    if |ns| == 0 then [] else LongToLE(ns[0]) + LongsToLE(ns[1..])
  }

  function LEToLongs(bs: seq<bv8>, off: nat, count: nat): (r: seq<bv64>)
    requires off + 8 * count <= |bs|
    ensures |r| == count
    decreases count
  {
    if count == 0 then [] else [LEToLong(bs, off)] + LEToLongs(bs, off + 8, count - 1)
  }

  lemma {:induction false} LEToLongsShift(bs: seq<bv8>, k: nat, count: nat)
    requires k + 8 * count <= |bs|
    ensures LEToLongs(bs, k, count) == LEToLongs(bs[k..], 0, count)
    decreases count
  {
    if count > 0 {
      LEToLongsShift(bs, k + 8, count - 1);
      LEToLongsShift(bs[k..], 8, count - 1);
      assert bs[k..][8..] == bs[k + 8..];
    }
  }

  /** Unpacking packed 64-bit words gives them back. */
  lemma {:induction false} LEToLongsOfLongsToLE(ns: seq<bv64>)
    ensures LEToLongs(LongsToLE(ns), 0, |ns|) == ns
  {
    if |ns| > 0 {
      var bs := LongsToLE(ns);
      LEToLongsOfLongsToLE(ns[1..]);
      assert bs[8..] == LongsToLE(ns[1..]);
      LEToLongsShift(bs, 8, |ns| - 1);
      LEToLongOfLongToLE(ns[0]);
      assert bs[..8] == LongToLE(ns[0]);
      assert LEToLong(bs, 0) == LEToLong(bs[..8], 0);
    }
  }

  /** toByteArray(String): one byte per char, the char's low 8 bits. */
  function ToByteArray(s: seq<bv16>): (r: seq<bv8>)
    ensures |r| == |s|
    ensures forall i :: 0 <= i < |s| ==> r[i] as bv16 == s[i] & 0xFF
  {
    if |s| == 0 then [] else [LowByte(s[0])] + ToByteArray(s[1..])
  }

  /** The Java narrowing cast (byte)ch. */
  function LowByte(c: bv16): (r: bv8)
    ensures r as bv16 == c & 0xFF
  {
    (c & 0xFF) as bv8
  }

  /** clone(byte[]): null stays null, otherwise an array with the same content. */
  function CloneBytes(data: Option<seq<bv8>>): (r: Option<seq<bv8>>)
    ensures r.None? <==> data.None?
    ensures r.Some? ==> |r.value| == |data.value| && forall i :: 0 <= i < |r.value| ==> r.value[i] == data.value[i]
  {
    match data
    case None => None
    case Some(d) => Some(CopyLoop(d, seq(|d|, _ => 0), 0))
  }

  /** clone(CByteArray): null stays null, otherwise a new writable buffer with the same bytes. */
  function CloneBuffer(data: Option<CByteArray>): (r: Option<CByteArray>)
    ensures r.None? <==> data.None?
    ensures r.Some? ==> r.value.Bytes() == data.value.Bytes() && !r.value.store.readOnly
  {
    match data
    case None => None
    case Some(b) => Some(CByteArray(CopyOf(b.store)))
  }
}
