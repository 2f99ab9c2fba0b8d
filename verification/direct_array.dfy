/** DirectArrayBase: the fixed-capacity byte storage under every secure buffer.
    The storage is a java.nio buffer allocated off the garbage-collected heap; here it is
    the byte sequence itself, the one-way read-only flag, and the buffer's position
    (used only by the relative `write` methods of CByteArray). */
module DirectArray {
  import opened Errors

  datatype Storage = Storage(bytes: seq<bv8>, readOnly: bool, position: nat) {

    /** sizeInBytes(): the capacity, fixed for the life of the buffer. */
    function Capacity(): nat {
      |bytes|
    }
  }

  /** `new DirectArrayBase(capacity)`: ByteBuffer.allocateDirect refuses a negative
      capacity and otherwise hands out zero-filled, writable storage. */
  function Allocate(capacity: int): (r: Result<Storage>)
    ensures capacity < 0 <==> r == Err(IllegalArgument)
    ensures r.Ok? ==> r.value.Capacity() == capacity && !r.value.readOnly
    ensures r.Ok? ==> forall i :: 0 <= i < capacity ==> r.value.bytes[i] == 0
  {
    if capacity < 0 then Err(IllegalArgument)
    else Ok(Storage(seq(capacity, _ => 0), false, 0))
  }

  /** The copy constructor: a fresh buffer of the same size, filled byte by byte from
      the source, never read-only and independent of the source. */
  function CopyOf(src: Storage): (r: Storage)
    ensures r.Capacity() == src.Capacity()
    ensures forall i :: 0 <= i < src.Capacity() ==> r.bytes[i] == src.bytes[i]
    ensures !r.readOnly && r.position == 0
  {
    Storage(CopyLoop(src.bytes, seq(|src.bytes|, _ => 0), 0), false, 0)
  }

  /** The copy loop of the constructor: positions below i are already copied. */
  function {:tailrecursion} CopyLoop(src: seq<bv8>, dst: seq<bv8>, i: nat): (r: seq<bv8>)
    requires |dst| == |src| && i <= |src|
    ensures |r| == |src|
    ensures forall k :: 0 <= k < i ==> r[k] == dst[k]
    ensures forall k :: i <= k < |src| ==> r[k] == src[k]
    decreases |src| - i
  {
    if i == |src| then dst else CopyLoop(src, dst[i := src[i]], i + 1)
  }

  /** setReadOnly(): one way; no operation clears the flag again. */
  function SetReadOnly(s: Storage): (r: Storage)
    ensures r.readOnly && r.bytes == s.bytes
  {
    s.(readOnly := true)
  }

  /** checkWriteable(): the guard every mutator of a buffer view runs first. */
  function CheckWriteable(s: Storage): (r: Outcome)
    ensures r.Fail? <==> s.readOnly
    ensures r.Fail? ==> r.error == ReadOnly
  {
    if s.readOnly then Fail(ReadOnly) else Pass
  }

  /** copyBytes(index, src, srcOffset, srcLength): byte i of the source range lands at
      index + i. The loop does not consult the read-only flag; a position outside
      either buffer ends it with the java.nio IndexOutOfBoundsException. */
  function CopyBytes(s: Storage, index: int, src: Storage, srcOffset: int, srcLength: int): (r: Result<Storage>)
    ensures r.Ok? <==> srcLength <= 0
                        || (0 <= index && index + srcLength <= s.Capacity()
                            && 0 <= srcOffset && srcOffset + srcLength <= src.Capacity())
    ensures r.Err? ==> r.error == IndexOutOfBounds
    ensures r.Ok? ==> r.value.Capacity() == s.Capacity() && r.value.readOnly == s.readOnly
    ensures r.Ok? ==> forall k :: index <= k < index + srcLength ==> r.value.bytes[k] == src.bytes[srcOffset + (k - index)]
    ensures r.Ok? ==> forall k :: 0 <= k < s.Capacity() && !(index <= k < index + srcLength) ==>
                        r.value.bytes[k] == s.bytes[k]
  {
    if srcLength <= 0 then Ok(s)
    else if index < 0 || index + srcLength > s.Capacity() || srcOffset < 0 || srcOffset + srcLength > src.Capacity()
    then Err(IndexOutOfBounds)
    else Ok(s.(bytes := CopyRange(s.bytes, index, src.bytes, srcOffset, srcLength, 0)))
  }

  /** The loop of copyBytes, iteration i onwards. */
  function {:tailrecursion} CopyRange(dst: seq<bv8>, index: nat, src: seq<bv8>, srcOffset: nat, n: nat, i: nat): (r: seq<bv8>)
    requires index + n <= |dst| && srcOffset + n <= |src| && i <= n
    ensures |r| == |dst|
    ensures forall k :: index + i <= k < index + n ==> r[k] == src[srcOffset + (k - index)]
    ensures forall k :: 0 <= k < |dst| && !(index + i <= k < index + n) ==> r[k] == dst[k]
    decreases n - i
  {
    if i == n then dst else CopyRange(dst[index + i := src[srcOffset + i]], index, src, srcOffset, n, i + 1)
  }

  /** zero(): every byte becomes 0. Always permitted, read-only or not. */
  function Zero(s: Storage): (r: Storage)
    ensures r.Capacity() == s.Capacity() && r.readOnly == s.readOnly
    ensures forall i :: 0 <= i < r.Capacity() ==> r.bytes[i] == 0
  {
    s.(bytes := ZeroLoop(s.bytes, 0))
  }

  function {:tailrecursion} ZeroLoop(b: seq<bv8>, i: nat): (r: seq<bv8>)
    requires i <= |b|
    ensures |r| == |b|
    ensures forall k :: i <= k < |b| ==> r[k] == 0
    ensures forall k :: 0 <= k < i ==> r[k] == b[k]
    decreases |b| - i
  {
    if i == |b| then b else ZeroLoop(b[i := 0], i + 1)
  }

  /** Zeroing twice is zeroing once. */
  lemma ZeroIdempotent(s: Storage)
    ensures Zero(Zero(s)) == Zero(s)
  {
    assert Zero(Zero(s)).bytes == Zero(s).bytes;
  }

  /** The read-only flag is one-way: every operation on an existing buffer keeps it set. */
  lemma ReadOnlyIsPermanent(s: Storage, index: int, src: Storage, srcOffset: int, srcLength: int)
    requires s.readOnly
    ensures SetReadOnly(s).readOnly && Zero(s).readOnly && CheckWriteable(s).Fail?
    ensures CopyBytes(s, index, src, srcOffset, srcLength).Ok? ==> CopyBytes(s, index, src, srcOffset, srcLength).value.readOnly
  {
  }

  /** A copy is deep: writing into the copy leaves the source as it was, and the copy
      starts writable even when the source is frozen. */
  lemma {:induction false} CopyIsDeep(src: Storage, i: int, v: bv8)
    requires 0 <= i < src.Capacity()
    ensures CheckWriteable(CopyOf(src)).Pass?
    ensures CopyOf(src).bytes == src.bytes
    ensures CopyOf(src).(bytes := CopyOf(src).bytes[i := v]).bytes[i] == v
  {
    assert CopyOf(src).bytes == src.bytes;
  }
}
