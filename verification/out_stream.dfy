/** CByteArrayOutputStream: a growable, zeroable byte sink. The stream is its buffer and the
    count of bytes written; only buffer[..size] is content. */
module ByteOutput {
  import opened Errors
  import opened JavaInt
  import opened DirectArray
  import opened SecureBytes

  /** The largest capacity grow() agrees to. */
  const MAX_SIZE: int := INT_MAX - 64
  const DEFAULT_CAPACITY: int := 256

  datatype Stream = Stream(buffer: CByteArray, size: int32)

  /** What every reachable stream satisfies. */
  predicate Valid(s: Stream) {
    0 <= s.size <= s.buffer.Length() <= INT_MAX && !s.buffer.store.readOnly
  }

  /** The bytes written so far. */
  function Contents(s: Stream): seq<bv8>
    requires 0 <= s.size <= s.buffer.Length()
  {
    s.buffer.Bytes()[..s.size]
  }

  /** `new CByteArrayOutputStream(capacity)`: a negative capacity is refused. */
  function Create(capacity: int32): (r: Result<Stream>)
    ensures r.Ok? <==> capacity >= 0
    ensures r.Err? ==> r.error == IllegalArgument
    ensures r.Ok? ==> Valid(r.value) && Contents(r.value) == [] && r.value.buffer.Length() == capacity
  {
    if capacity < 0 then Err(IllegalArgument)
    else Ok(Stream(New(capacity).value, 0))
  }

  /** `new CByteArrayOutputStream()`. */
  function CreateDefault(): (r: Stream)
    ensures Valid(r) && Contents(r) == [] && r.buffer.Length() == DEFAULT_CAPACITY
  {
    Create(DEFAULT_CAPACITY).value
  }

  /** grow(requested): a new buffer of twice the current size (an int shift), or of the
      requested size when that is more, holding the content. Called only when requested
      exceeds the capacity. */
  function Grow(s: Stream, requested: int32): (r: Result<Stream>)
    requires Valid(s) && requested > s.buffer.Length()
    ensures r.Ok? <==> requested <= MAX_SIZE
    ensures r.Err? ==> r.error == OutOfMemory
    ensures r.Ok? ==> Valid(r.value) && Contents(r.value) == Contents(s) && r.value.buffer.Length() >= requested
    ensures r.Ok? ==> r.value.buffer.Length() == (if requested < 2 * s.size <= INT_MAX then 2 * s.size else requested)
  {
    if requested < 0 || requested > MAX_SIZE then Err(OutOfMemory)
    else
      var doubled := Wrap32(s.size * 2);
      var cap := if doubled < requested then requested else doubled;
      var buf := New(cap).value;
      var copied := CopyBytes(buf.store, 0, s.buffer.store, 0, s.size).value;
      assert copied.bytes[..s.size] == s.buffer.Bytes()[..s.size];
      Ok(Stream(CByteArray(copied), s.size))
  }

  /** ensureCapacity(cap): grows only when cap exceeds the capacity. A wrapped-negative cap
      never does. */
  function EnsureCapacity(s: Stream, cap: int32): (r: Result<Stream>)
    requires Valid(s)
    ensures cap <= s.buffer.Length() ==> r == Ok(s)
    ensures r.Ok? <==> cap <= s.buffer.Length() || cap <= MAX_SIZE
    ensures r.Err? ==> r.error == OutOfMemory
    ensures r.Ok? ==> Valid(r.value) && Contents(r.value) == Contents(s) && r.value.size == s.size
    ensures r.Ok? ==> cap <= r.value.buffer.Length()
  {
    if cap > s.buffer.Length() then Grow(s, cap) else Ok(s)
  }

  /** The range test of write, as written with int arithmetic. */
  predicate RangeRejected(offset: int32, length: int32, srcLength: int32) {
    offset < 0 || offset > srcLength || length < 0 || IntSub(IntAdd(offset, length), srcLength) > 0
  }

  /** write(src, offset, length) for byte[] and CByteArray sources: the range is checked, the
      buffer grown to size + length (an int sum) and the bytes copied after the content. */
  function Write(s: Stream, src: seq<bv8>, offset: int32, length: int32): (r: Result<Stream>)
    requires Valid(s) && |src| <= INT_MAX
    ensures !(0 <= offset && 0 <= length && offset + length <= |src|) ==> r == Err(IndexOutOfBounds)
    ensures r.Ok? <==> 0 <= offset && 0 <= length && offset + length <= |src|
                       && (s.size + length <= s.buffer.Length() || s.size + length <= MAX_SIZE)
    ensures r.Ok? ==> Valid(r.value) && Contents(r.value) == Contents(s) + src[offset..offset + length]
  {
    RangeTestIsExact(offset, length, |src|);
    if RangeRejected(offset, length, |src|) then Err(IndexOutOfBounds)
    else
      var t :- EnsureCapacity(s, IntAdd(s.size, length));
      var copied :- CopyBytes(t.buffer.store, s.size, Storage(src, false, 0), offset, length);
      var r := Stream(CByteArray(copied), IntAdd(s.size, length));
      Appended(t, copied, src, offset, length);
      Ok(r)
  }

  /** write(CByteArray, offset, length): the same as the byte[] form over the array's bytes. */
  function WriteArray(s: Stream, src: CByteArray, offset: int32, length: int32): (r: Result<Stream>)
    requires Valid(s) && src.Length() <= INT_MAX
    ensures r.Ok? <==> 0 <= offset && 0 <= length && offset + length <= src.Length()
                       && (s.size + length <= s.buffer.Length() || s.size + length <= MAX_SIZE)
    ensures r.Ok? ==> Valid(r.value) && Contents(r.value) == Contents(s) + src.Bytes()[offset..offset + length]
  {
    Write(s, src.Bytes(), offset, length)
  }

  /** write(int b): the low eight bits of b appended. b is given by its 32 bits. */
  function WriteByte(s: Stream, b: bv32): (r: Result<Stream>)
    requires Valid(s)
    ensures r.Ok? <==> s.size + 1 <= s.buffer.Length() || s.size + 1 <= MAX_SIZE
    ensures r.Ok? ==> Valid(r.value) && Contents(r.value) == Contents(s) + [(b & 0xFF) as bv8]
  {
    var t :- EnsureCapacity(s, IntAdd(s.size, 1));
    var buf :- Set(t.buffer, s.size, (b & 0xFF) as bv8);
    assert buf.Bytes()[..s.size + 1] == Contents(s) + [(b & 0xFF) as bv8];
    Ok(Stream(buf, s.size + 1))
  }

  /** toCByteArray(): a new array holding exactly the content. */
  function ToCByteArray(s: Stream): (r: CByteArray)
    requires Valid(s)
    ensures r.Bytes() == Contents(s) && !r.store.readOnly
  {
    CByteArray(Storage(s.buffer.Bytes()[..s.size], false, 0))
  }

  /** close() and zero(): every byte of the buffer becomes 0; the count is kept. */
  function Zero(s: Stream): (r: Stream)
    requires Valid(s)
    ensures Valid(r) && r.size == s.size && r.buffer.Length() == s.buffer.Length()
    ensures forall i :: 0 <= i < r.buffer.Length() ==> r.buffer.Bytes()[i] == 0
  {
    Stream(CByteArray(DirectArray.Zero(s.buffer.store)), s.size)
  }

  /** The int range test of write rejects exactly the ranges that leave src, although
      offset + length may wrap. */
  lemma RangeTestIsExact(offset: int32, length: int32, srcLength: int32)
    requires 0 <= srcLength
    ensures RangeRejected(offset, length, srcLength) <==> !(0 <= offset && 0 <= length && offset + length <= srcLength)
  {
    if 0 <= offset <= srcLength && 0 <= length && offset + length > INT_MAX {
      assert IntAdd(offset, length) == offset + length - TWO_32;
    }
  }

  /** The copy after the content extends the content by the copied range. */
  lemma Appended(t: Stream, copied: Storage, src: seq<bv8>, offset: int, length: int)
    requires Valid(t) && 0 <= offset && 0 <= length && offset + length <= |src|
    requires t.size + length <= t.buffer.Length() == copied.Capacity()
    requires forall k :: t.size <= k < t.size + length ==> copied.bytes[k] == src[offset + (k - t.size)]
    requires forall k :: 0 <= k < t.buffer.Length() && !(t.size <= k < t.size + length) ==>
               copied.bytes[k] == t.buffer.Bytes()[k]
    ensures copied.bytes[..t.size + length] == Contents(t) + src[offset..offset + length]
  {
  }

  /** A write whose total stays below MAX_SIZE succeeds whatever the capacity, so a stream of
      any initial capacity takes a whole array and gives it back unchanged. */
  lemma WholeArrayRoundTrip(capacity: int32, src: seq<bv8>)
    requires 0 <= capacity && |src| <= MAX_SIZE
    ensures Create(capacity).Ok?
    ensures Write(Create(capacity).value, src, 0, |src|).Ok?
    ensures ToCByteArray(Write(Create(capacity).value, src, 0, |src|).value).Bytes() == src
  {
    assert src[0..|src|] == src;
  }

  /** Writing a whole array and then another is writing their concatenation. */
  lemma WritesConcatenate(s: Stream, a: seq<bv8>, b: seq<bv8>)
    requires Valid(s) && |a| <= INT_MAX && |b| <= INT_MAX && s.size + |a| + |b| <= MAX_SIZE
    ensures Write(s, a, 0, |a|).Ok?
    ensures Write(Write(s, a, 0, |a|).value, b, 0, |b|).Ok?
    ensures Contents(Write(Write(s, a, 0, |a|).value, b, 0, |b|).value) == Contents(s) + a + b
  {
    assert a[0..|a|] == a && b[0..|b|] == b;
  }

  /** When size + length leaves the int range, ensureCapacity is handed a negative number and
      does not grow, so write fails in the copy with IndexOutOfBoundsException; grow's test for
      a negative request, and its OutOfMemoryError, are never reached from write. */
  lemma SumOverflowFailsInCopy(s: Stream, src: seq<bv8>, offset: int32, length: int32)
    requires Valid(s) && |src| <= INT_MAX
    requires 0 <= offset && 0 <= length && offset + length <= |src| && s.size + length > INT_MAX
    ensures IntAdd(s.size, length) < 0
    ensures EnsureCapacity(s, IntAdd(s.size, length)) == Ok(s)
    ensures Write(s, src, offset, length) == Err(IndexOutOfBounds)
  {
  }
}
