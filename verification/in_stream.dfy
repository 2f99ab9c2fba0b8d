/** CByteArrayInputStream: reads a CByteArray from a position up to a size, with mark and
    reset. The bytes still to come are buffer[position..size]. */
module ByteInput {
  import opened Errors
  import opened JavaInt
  import opened SecureBytes

  datatype Stream = Stream(buffer: CByteArray, size: int32, position: int32, mark: int32)

  /** What the first constructor establishes and every operation keeps. */
  predicate Valid(s: Stream) {
    0 <= s.position <= s.size <= s.buffer.Length() && 0 <= s.mark <= s.size
  }

  /** The bytes not yet read. */
  function Remaining(s: Stream): seq<bv8>
    requires Valid(s)
  {
    s.buffer.Bytes()[s.position..s.size]
  }

  /** `new CByteArrayInputStream(buf)`: the whole array, from its start. */
  function FromArray(buf: CByteArray): (r: Stream)
    requires buf.Length() <= INT_MAX
    ensures Valid(r) && Remaining(r) == buf.Bytes()
  {
    Stream(buf, buf.Length(), 0, 0)
  }

  /** `new CByteArrayInputStream(buf, offset, length)` as written: the buffer is a read-only
      copy of buf[offset..offset+length], indexed from 0, yet position and mark start at
      offset and size is offset + length, positions in buf. */
  function FromRangeAsWritten(buf: seq<bv8>, offset: int32, length: int32): (r: Result<Stream>)
    requires |buf| <= INT_MAX
    ensures r.Ok? <==> 0 <= offset && 0 <= length && offset + length <= |buf|
    ensures r.Ok? ==> r.value.buffer.Bytes() == buf[offset..offset + length]
    ensures r.Ok? ==> r.value.position == offset && r.value.size == offset + length
  {
    var b :- ReadOnlySlice(buf, offset, length);
    var end := IntAdd(offset, length);
    Ok(Stream(b, if end < |buf| then end else |buf|, offset, offset))
  }

  /** The constructor as intended: the bytes buf[offset..offset+length], from the start of
      the copy. */
  function FromRange(buf: seq<bv8>, offset: int32, length: int32): (r: Result<Stream>)
    requires |buf| <= INT_MAX
    ensures r.Ok? <==> 0 <= offset && 0 <= length && offset + length <= |buf|
    ensures r.Ok? ==> Valid(r.value) && Remaining(r.value) == buf[offset..offset + length]
  {
    var b :- ReadOnlySlice(buf, offset, length);
    Ok(Stream(b, length, 0, 0))
  }

  /** read(): the next byte as 0..255, or -1 at the end. Reading goes through buffer.get, so
      a position outside the buffer fails with IndexOutOfBoundsException. */
  function Read(s: Stream): (r: Result<(Stream, int)>)
    ensures Valid(s) ==> r.Ok? && Valid(r.value.0) && r.value.0.mark == s.mark
    ensures Valid(s) && s.position >= s.size ==> r.value == (s, -1)
    ensures Valid(s) && s.position < s.size ==>
              r.value.1 == Remaining(s)[0] as int && Remaining(r.value.0) == Remaining(s)[1..]
    ensures r.Ok? ==> -1 <= r.value.1 < 256
  {
    if s.position < s.size then
      var v :- Get(s.buffer, s.position);
      Ok((s.(position := s.position + 1), v as int))
    else Ok((s, -1))
  }

  /** The values read() returns one by one until it returns -1. */
  function Drain(s: Stream): (values: seq<int>)
    requires Valid(s)
    decreases s.size - s.position
  {
    var (t, v) := Read(s).value;
    if v < 0 then [] else [v] + Drain(t)
  }

  /** read() hands out exactly the remaining bytes, in order. */
  lemma {:induction false} DrainReadsRemaining(s: Stream)
    requires Valid(s)
    ensures |Drain(s)| == |Remaining(s)|
    ensures forall i :: 0 <= i < |Drain(s)| ==> Drain(s)[i] == Remaining(s)[i] as int
    decreases s.size - s.position
  {
    if s.position < s.size {
      var t := Read(s).value.0;
      DrainReadsRemaining(t);
    }
  }

  /** The argument checks of read(target, offset, length): a null target, then the range. */
  function CheckTarget(target: Option<seq<bv8>>, offset: int32, length: int32): (r: Outcome)
    requires target.Some? ==> |target.value| <= INT_MAX
    ensures r.Pass? <==> target.Some? && 0 <= offset && 0 <= length && offset + length <= |target.value|
    ensures target.None? ==> r == Fail(NullPointer)
    ensures target.Some? && r.Fail? ==> r.error == IndexOutOfBounds
  {
    if target.None? then Fail(NullPointer)
    else if length < 0 || offset < 0 || length > IntSub(|target.value|, offset) then Fail(IndexOutOfBounds)
    else Pass
  }

  /** The number of bytes read(target, offset, length) copies: length, cut to what is left. */
  function Count(s: Stream, length: int32): (n: int32)
    requires Valid(s) && 0 <= length
    ensures 0 <= n <= length && n <= |Remaining(s)|
    ensures n == length || n == |Remaining(s)|
  {
    var available := s.size - s.position;
    if length > available then available else length
  }

  /** read(target, offset, length) as written: each pass reads buffer.get(i + position) and
      then advances position, so pass i reads position + 2i. */
  function ReadIntoAsWritten(s: Stream, target: Option<seq<bv8>>, offset: int32, length: int32): (r: Result<(Stream, seq<bv8>, int32)>)
    requires Valid(s) && (target.Some? ==> |target.value| <= INT_MAX)
    ensures r.Ok? <==> CheckTarget(target, offset, length).Pass?
                       && (s.position >= s.size || s.position + 2 * Count(s, length) - 2 < s.buffer.Length())
    ensures r.Ok? && r.value.2 > 0 ==>
              r.value.2 == Count(s, length) && |r.value.1| == |target.value| && r.value.0.position == s.position + r.value.2
              && forall j :: 0 <= j < r.value.2 ==> r.value.1[offset + j] == s.buffer.Bytes()[s.position + 2 * j]
  {
    (:- CheckTarget(target, offset, length);
    if s.position >= s.size then Ok((s, target.value, -1))
    else
      var n := Count(s, length);
      if n <= 0 then Ok((s, target.value, 0))
      else
        var (t, p) :- LoopAsWritten(s.buffer, target.value, offset, s.position, 0, n);
        Ok((s.(position := p), t, n)))
  }

  /** The copy loop of read(target, ...) as written, from pass i on; pos is the position at
      the start of pass i. Pass j reads index j + pos + (j - i). */
  function LoopAsWritten(buffer: CByteArray, target: seq<bv8>, offset: int, pos: int, i: nat, n: nat): (r: Result<(seq<bv8>, int)>)
    requires 0 <= offset && offset + n <= |target| && i <= n
    ensures r.Ok? <==> i == n || (0 <= pos + i && pos + 2 * n - i - 2 < buffer.Length())
    ensures r.Ok? ==> |r.value.0| == |target| && r.value.1 == pos + (n - i)
    ensures r.Ok? ==> forall j :: i <= j < n ==> r.value.0[offset + j] == buffer.Bytes()[pos + 2 * j - i]
    ensures r.Ok? ==> forall k :: 0 <= k < |target| && !(offset + i <= k < offset + n) ==> r.value.0[k] == target[k]
    decreases n - i
  {
    if i == n then Ok((target, pos))
    else
      var b :- Get(buffer, i + pos);
      LoopAsWritten(buffer, target[offset + i := b], offset, pos + 1, i + 1, n)
  }

  /** read(target, offset, length) as intended: the next Count bytes, in order. */
  function ReadInto(s: Stream, target: Option<seq<bv8>>, offset: int32, length: int32): (r: Result<(Stream, seq<bv8>, int32)>)
    requires Valid(s) && (target.Some? ==> |target.value| <= INT_MAX)
    ensures r.Ok? <==> CheckTarget(target, offset, length).Pass?
    ensures r.Err? ==> r.error == CheckTarget(target, offset, length).error
    ensures r.Ok? ==> Valid(r.value.0) && r.value.0.mark == s.mark && |r.value.1| == |target.value|
    ensures r.Ok? && s.position >= s.size ==> r.value == (s, target.value, -1)
    ensures r.Ok? && s.position < s.size ==>
              var n := Count(s, length);
              r.value.2 == n
              && r.value.1 == target.value[..offset] + Remaining(s)[..n] + target.value[offset + n..]
              && Remaining(r.value.0) == Remaining(s)[n..]
  {
    (:- CheckTarget(target, offset, length);
    if s.position >= s.size then Ok((s, target.value, -1))
    else
      var n := Count(s, length);
      if n <= 0 then Ok((s, target.value, 0))
      else
        var (t, p) := Loop(s.buffer, target.value, offset, s.position, 0, n).value;
        Copied(s, target.value, t, offset, n);
        Ok((s.(position := p), t, n)))
  }

  /** The copy loop as intended: pass j reads the position reached so far. */
  function Loop(buffer: CByteArray, target: seq<bv8>, offset: int, pos: int, i: nat, n: nat): (r: Result<(seq<bv8>, int)>)
    requires 0 <= offset && offset + n <= |target| && i <= n
    ensures r.Ok? <==> i == n || (0 <= pos && pos + n - i <= buffer.Length())
    ensures r.Ok? ==> |r.value.0| == |target| && r.value.1 == pos + (n - i)
    ensures r.Ok? ==> forall k :: offset + i <= k < offset + n ==> r.value.0[k] == buffer.Bytes()[pos + (k - offset) - i]
    ensures r.Ok? ==> forall k :: 0 <= k < |target| && !(offset + i <= k < offset + n) ==> r.value.0[k] == target[k]
    decreases n - i
  {
    if i == n then Ok((target, pos))
    else
      var b :- Get(buffer, pos);
      var r := Loop(buffer, target[offset + i := b], offset, pos + 1, i + 1, n);
      assert r.Ok? ==> r.value.0[offset + i] == b;
      r
  }

  /** The loop's per-index result, as one sequence. */
  lemma Copied(s: Stream, target: seq<bv8>, t: seq<bv8>, offset: int, n: int)
    requires Valid(s) && 0 <= offset && 0 <= n && offset + n <= |target| && n <= |Remaining(s)|
    requires |t| == |target|
    requires forall k :: offset <= k < offset + n ==> t[k] == s.buffer.Bytes()[s.position + (k - offset)]
    requires forall k :: 0 <= k < |target| && !(offset <= k < offset + n) ==> t[k] == target[k]
    ensures t == target[..offset] + Remaining(s)[..n] + target[offset + n..]
  {
    var u := target[..offset] + Remaining(s)[..n] + target[offset + n..];
    forall k | 0 <= k < |t|
      ensures t[k] == u[k]
    {
      if offset <= k < offset + n {
        assert u[k] == Remaining(s)[k - offset];
      }
    }
  }

  /** A one-byte read(target, ...) and read() agree. */
  lemma ReadIntoAgreesWithRead(s: Stream, target: seq<bv8>, offset: int32)
    requires Valid(s) && s.position < s.size && |target| <= INT_MAX && 0 <= offset < |target|
    ensures ReadInto(s, Some(target), offset, 1).Ok?
    ensures ReadInto(s, Some(target), offset, 1).value.1[offset] as int == Read(s).value.1
    ensures ReadInto(s, Some(target), offset, 1).value.0 == Read(s).value.0
  {
  }

  /** skip(n): n clamped to [0, available]; returns the count skipped. */
  function Skip(s: Stream, n: int64): (r: (Stream, int64))
    requires Valid(s)
    ensures Valid(r.0) && r.0.mark == s.mark
    ensures r.1 == if n < 0 then 0 else if n < |Remaining(s)| then n else |Remaining(s)|
    ensures Remaining(r.0) == Remaining(s)[r.1..]
  {
    var k: int64 := s.size - s.position;
    var k := if n < k then (if n < 0 then 0 else n) else k;
    (s.(position := Wrap32(s.position + k)), k)
  }

  /** available(): how many bytes are left. */
  function Available(s: Stream): (r: int32)
    requires Valid(s)
    ensures r == |Remaining(s)|
  {
    s.size - s.position
  }

  /** mark(readlimit): remembers the position; the limit is ignored. */
  function Mark(s: Stream, readLimit: int32): (r: Stream)
    requires Valid(s)
    ensures Valid(r) && Remaining(r) == Remaining(s) && r.mark == s.position
  {
    s.(mark := s.position)
  }

  /** reset(): back to the marked position. */
  function Reset(s: Stream): (r: Stream)
    requires Valid(s)
    ensures Valid(r) && r.position == s.mark && r.mark == s.mark
  {
    s.(position := s.mark)
  }

  /** After mark, skipping or reading and then reset gives the marked stream back, so the same
      bytes are read again. */
  lemma ResetRestoresMark(s: Stream, limit: int32, n: int64)
    requires Valid(s)
    ensures Reset(Skip(Mark(s, limit), n).0) == Mark(s, limit)
    ensures Reset(Read(Mark(s, limit)).value.0) == Mark(s, limit)
    ensures Drain(Reset(Read(Mark(s, limit)).value.0)) == Drain(Mark(s, limit))
  {
  }

  /** The second constructor as written, with a non-zero offset, starts outside its own copy:
      its size exceeds the buffer, and the last offset bytes cannot be read. For buf = [1, 2],
      offset 1 and length 1, read() fails where it should return 2. */
  lemma RangeConstructorMisreads()
    ensures FromRangeAsWritten([1, 2], 1, 1).Ok?
    ensures !Valid(FromRangeAsWritten([1, 2], 1, 1).value)
    ensures Read(FromRangeAsWritten([1, 2], 1, 1).value) == Err(IndexOutOfBounds)
    ensures FromRange([1, 2], 1, 1).Ok?
    ensures Read(FromRange([1, 2], 1, 1).value).value.1 == 2
  {
    var b: seq<bv8> := [1, 2];
    assert b[1..2] == [2];
  }

  /** With offset > 0 the as-written constructor always yields a stream past its buffer. */
  lemma RangeConstructorInvalid(buf: seq<bv8>, offset: int32, length: int32)
    requires |buf| <= INT_MAX && 0 < offset && 0 <= length && offset + length <= |buf|
    ensures FromRangeAsWritten(buf, offset, length).Ok?
    ensures !Valid(FromRangeAsWritten(buf, offset, length).value)
  {
  }

  /** read(target, ...) as written skips every other byte: from [1, 2, 3] it copies 1 and 3,
      and from [1, 2] a two-byte read fails, where the intended read copies 1, 2. */
  lemma ReadIntoSkips()
    ensures ReadIntoAsWritten(FromArray(CByteArray(DirectArray.Storage([1, 2, 3], true, 0))), Some([0, 0]), 0, 2).Ok?
    ensures ReadIntoAsWritten(FromArray(CByteArray(DirectArray.Storage([1, 2, 3], true, 0))), Some([0, 0]), 0, 2).value.1 == [1, 3]
    ensures ReadInto(FromArray(CByteArray(DirectArray.Storage([1, 2, 3], true, 0))), Some([0, 0]), 0, 2).value.1 == [1, 2]
    ensures ReadIntoAsWritten(FromArray(CByteArray(DirectArray.Storage([1, 2], true, 0))), Some([0, 0]), 0, 2) == Err(IndexOutOfBounds)
  {
  }
}
