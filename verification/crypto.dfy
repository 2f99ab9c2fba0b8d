/** Crypto: the byte[] and char[] helpers of the older crypto package that the rest of the
    library still uses: big-endian packing of chars into bytes and back, copy, and zero.
    A Java char is a bv16; a null array is None. */
module Crypto {
  import opened Errors
  import opened JavaInt

  /** The high byte of a char: `(byte)(c >>> 8)`. */
  function High(c: bv16): bv8 {
    (c >> 8) as bv8
  }

  /** The low byte of a char: `(byte) c`. */
  function Low(c: bv16): bv8 {
    (c & 0xFF) as bv8
  }

  /** The char `((h & 0xff) << 8) | (l & 0xff)`. */
  function Join(h: bv8, l: bv8): (c: bv16)
    ensures High(c) == h && Low(c) == l
  {
    (h as bv16 << 8) | l as bv16
  }

  /** A char is its two bytes joined. */
  lemma JoinSplit(c: bv16)
    ensures Join(High(c), Low(c)) == c
  {
  }

  /** The packed form of a char sequence: each char as two bytes, high byte first. */
  function Packed(cs: seq<bv16>): (b: seq<bv8>)
    ensures |b| == 2 * |cs|
    decreases |cs|
  {
    if cs == [] then [] else [High(cs[0]), Low(cs[0])] + Packed(cs[1..])
  }

  /** Byte 2i of the packed form is the high byte of char i, byte 2i + 1 its low byte. */
  lemma {:induction false} PackedAt(cs: seq<bv16>, i: nat)
    requires i < |cs|
    ensures Packed(cs)[2 * i] == High(cs[i]) && Packed(cs)[2 * i + 1] == Low(cs[i])
    decreases i
  {
    if i > 0 {
      PackedAt(cs[1..], i - 1);
    }
  }

  /** The chars of a byte sequence read two at a time, high byte first; a trailing odd
      byte is not read. */
  function Unpacked(b: seq<bv8>): (cs: seq<bv16>)
    ensures |cs| == |b| / 2
    decreases |b|
  {
    if |b| < 2 then [] else [Join(b[0], b[1])] + Unpacked(b[2..])
  }

  /** Char i of the unpacked form joins bytes 2i and 2i + 1. */
  lemma {:induction false} UnpackedAt(b: seq<bv8>, i: nat)
    requires i < |b| / 2
    ensures Unpacked(b)[i] == Join(b[2 * i], b[2 * i + 1])
    decreases i
  {
    if i > 0 {
      UnpackedAt(b[2..], i - 1);
    }
  }

  /** Unpacking the packed form gives the chars back. */
  lemma {:induction false} UnpackPacked(cs: seq<bv16>)
    ensures Unpacked(Packed(cs)) == cs
    decreases |cs|
  {
    if cs != [] {
      var p := Packed(cs);
      assert p[2..] == Packed(cs[1..]);
      UnpackPacked(cs[1..]);
      JoinSplit(cs[0]);
    }
  }

  /** Packing the unpacked form gives back the bytes, less a trailing odd byte. */
  lemma {:induction false} PackUnpacked(b: seq<bv8>)
    ensures Packed(Unpacked(b)) == b[..|b| / 2 * 2]
    decreases |b|
  {
    if |b| >= 2 {
      PackUnpacked(b[2..]);
      assert b[..|b| / 2 * 2] == [b[0], b[1]] + b[2..][..|b[2..]| / 2 * 2];
    }
  }

  /** chars2bytes(cs): null for null; otherwise a new byte[sz + sz] filled by the loop, two
      bytes per char. The int sum sz + sz wraps negative once sz reaches 2^30, and the
      allocation then throws. */
  method Chars2Bytes(cs: Option<seq<bv16>>) returns (r: Result<Option<seq<bv8>>>)
    requires cs.Some? ==> |cs.value| <= INT_MAX
    ensures cs.None? ==> r == Ok(None)
    ensures cs.Some? && 2 * |cs.value| > INT_MAX ==> r == Err(NegativeArraySize)
    ensures cs.Some? && 2 * |cs.value| <= INT_MAX ==> r == Ok(Some(Packed(cs.value)))
  {
    if cs.None? {
      return Ok(None);
    }
    var s := cs.value;
    var sz := |s|;
    if IntAdd(sz as int32, sz as int32) < 0 {
      return Err(NegativeArraySize);
    }
    var b: seq<bv8> := seq(sz + sz, _ => 0);
    var ix := 0;
    var i := 0;
    while i < sz
      invariant 0 <= i <= sz && ix == 2 * i && |b| == 2 * sz
      invariant b[..ix] == Packed(s[..i])
    {
      b := b[ix := High(s[i])];
      b := b[ix + 1 := Low(s[i])];
      assert s[..i + 1] == s[..i] + [s[i]];
      PackedAppend(s[..i], s[i]);
      ix := ix + 2;
      i := i + 1;
    }
    assert s[..sz] == s && b[..ix] == b;
    return Ok(Some(b));
  }

  /** Packing one more char appends its two bytes. */
  lemma {:induction false} PackedAppend(cs: seq<bv16>, c: bv16)
    ensures Packed(cs + [c]) == Packed(cs) + [High(c), Low(c)]
    decreases |cs|
  {
    if cs != [] {
      assert (cs + [c])[1..] == cs[1..] + [c];
      PackedAppend(cs[1..], c);
    }
  }

  /** bytes2chars(b): null for null; otherwise a new char[b.length / 2] filled by the loop. */
  method Bytes2Chars(b: Option<seq<bv8>>) returns (r: Option<seq<bv16>>)
    ensures b.None? <==> r.None?
    ensures b.Some? ==> r.value == Unpacked(b.value)
  {
    if b.None? {
      return None;
    }
    var s := b.value;
    var sz := |s| / 2;
    var cs: seq<bv16> := seq(sz, _ => 0);
    var ix := 0;
    var i := 0;
    while i < sz
      invariant 0 <= i <= sz && ix == 2 * i && |cs| == sz
      invariant forall k :: 0 <= k < i ==> cs[k] == Join(s[2 * k], s[2 * k + 1])
    {
      cs := cs[i := Join(s[ix], s[ix + 1])];
      ix := ix + 2;
      i := i + 1;
    }
    forall k | 0 <= k < sz
      ensures cs[k] == Unpacked(s)[k]
    {
      UnpackedAt(s, k);
    }
    return Some(cs);
  }

  /** copy(key): null for null, otherwise a new array with the same bytes. */
  method Copy(key: Option<seq<bv8>>) returns (r: Option<seq<bv8>>)
    ensures r == key
  {
    if key.None? {
      return None;
    }
    var src := key.value;
    var rv: seq<bv8> := seq(|src|, _ => 0);
    var i := 0;
    while i < |src|
      invariant 0 <= i <= |src| && |rv| == |src|
      invariant rv[..i] == src[..i]
    {
      rv := rv[i := src[i]];
      i := i + 1;
    }
    assert rv == rv[..|src|] && src == src[..|src|];
    return Some(rv);
  }

  /** zero(b): every byte of a non-null array becomes 0; nothing is thrown (the catch-all
      only logs, and Arrays.fill cannot fail here). */
  method Zero(b: Option<seq<bv8>>) returns (r: Option<seq<bv8>>)
    ensures r.None? <==> b.None?
    ensures r.Some? ==> |r.value| == |b.value| && forall i :: 0 <= i < |r.value| ==> r.value[i] == 0
  {
    if b.None? {
      return None;
    }
    var s := b.value;
    var i := 0;
    while i < |s|
      invariant 0 <= i <= |s| == |b.value|
      invariant forall k :: 0 <= k < i ==> s[k] == 0
    {
      s := s[i := 0];
      i := i + 1;
    }
    return Some(s);
  }
}
