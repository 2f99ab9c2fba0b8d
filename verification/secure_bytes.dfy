/** CByteArray: the zeroable replacement for byte[] built on DirectArrayBase. */
module SecureBytes {
  import opened Errors
  import opened DirectArray

  datatype CByteArray = CByteArray(store: Storage) {
    /** length(): the capacity in bytes. */
    function Length(): nat {
      store.Capacity()
    }
    function Bytes(): seq<bv8> {
      store.bytes
    }
  }

  /** `new CByteArray(capacity)`. */
  function New(capacity: int): (r: Result<CByteArray>)
    ensures capacity < 0 <==> r.Err?
    ensures r.Ok? ==> r.value.Length() == capacity && !r.value.store.readOnly
    ensures r.Ok? ==> forall i :: 0 <= i < capacity ==> r.value.Bytes()[i] == 0
  {
    var s :- Allocate(capacity);
    Ok(CByteArray(s))
  }

  /** get(index): reading is allowed on read-only buffers; only the range is checked. */
  function Get(b: CByteArray, index: int): (r: Result<bv8>)
    ensures r.Ok? <==> 0 <= index < b.Length()
    ensures r.Ok? ==> r.value == b.Bytes()[index]
    ensures r.Err? ==> r.error == IndexOutOfBounds
  {
    if 0 <= index < b.Length() then Ok(b.Bytes()[index]) else Err(IndexOutOfBounds)
  }

  /** set(index, value): refused on a read-only buffer before the index is looked at. */
  function Set(b: CByteArray, index: int, value: bv8): (r: Result<CByteArray>)
    ensures b.store.readOnly ==> r == Err(ReadOnly)
    ensures !b.store.readOnly ==> (r.Ok? <==> 0 <= index < b.Length())
    ensures r.Ok? ==> r.value.Length() == b.Length() && r.value.store.readOnly == b.store.readOnly
    ensures r.Ok? ==> r.value.Bytes()[index] == value
    ensures r.Ok? ==> forall k :: 0 <= k < b.Length() && k != index ==> r.value.Bytes()[k] == b.Bytes()[k]
  {
    (:- CheckWriteable(b.store);
    if 0 <= index < b.Length() then Ok(CByteArray(b.store.(bytes := b.Bytes()[index := value])))
    else Err(IndexOutOfBounds))
  }

  /** set(index, src, offset, len): moves the buffer position to index (the java.nio
      IllegalArgumentException outside [0, capacity]) and then bulk-puts src[offset..offset+len]
      (IndexOutOfBoundsException for a bad source range, BufferOverflowException when the
      bytes do not fit). The buffer position ends just past the written bytes. */
  function SetRange(b: CByteArray, index: int, src: seq<bv8>, offset: int, len: int): (r: Result<CByteArray>)
    ensures r.Ok? <==> !b.store.readOnly && 0 <= index <= b.Length()
                        && 0 <= offset && 0 <= len && offset + len <= |src| && index + len <= b.Length()
    ensures r.Ok? ==> r.value.Length() == b.Length() && r.value.store.readOnly == b.store.readOnly
    ensures r.Ok? ==> r.value.Bytes() == b.Bytes()[..index] + src[offset..offset + len] + b.Bytes()[index + len..]
    ensures r.Ok? ==> r.value.store.position == index + len
  {
    (:- CheckWriteable(b.store);
    :- Need(0 <= index <= b.Length(), IllegalArgument);
    :- Need(0 <= offset && 0 <= len && offset + len <= |src|, IndexOutOfBounds);
    :- Need(index + len <= b.Length(), BufferOverflow);
    Ok(CByteArray(b.store.(bytes := b.Bytes()[..index] + src[offset..offset + len] + b.Bytes()[index + len..],
                           position := index + len))))
  }

  /** setReadOnly() exposed on the array. */
  function Freeze(b: CByteArray): (r: CByteArray)
    ensures r.store.readOnly && r.Bytes() == b.Bytes()
  {
    CByteArray(SetReadOnly(b.store))
  }

  /** toReadOnly(): a read-only copy with the same bytes. */
  function ToReadOnly(b: CByteArray): (r: CByteArray)
    ensures r.store.readOnly && r.Bytes() == b.Bytes()
  {
    CByteArray(SetReadOnly(CopyOf(b.store)))
  }

  /** toReadOnly(offset, length): a new read-only array holding exactly this[offset..offset+length]. */
  function ToReadOnlySlice(b: CByteArray, offset: int, length: int): (r: Result<CByteArray>)
    ensures r.Ok? <==> length == 0 || (0 < length && 0 <= offset && offset + length <= b.Length())
    ensures r.Ok? ==> r.value.store.readOnly
    ensures r.Ok? && length == 0 ==> r.value.Bytes() == []
    ensures r.Ok? && length > 0 ==> r.value.Bytes() == b.Bytes()[offset..offset + length]
  {
    var made :- New(length);
    var copied :- CopyBytes(made.store, 0, b.store, offset, length);
    assert length > 0 ==> copied.bytes == b.Bytes()[offset..offset + length];
    Ok(CByteArray(SetReadOnly(copied)))
  }

  /** readOnly(src, offset, len): a new read-only array holding exactly src[offset..offset+len]. */
  function ReadOnlySlice(src: seq<bv8>, offset: int, len: int): (r: Result<CByteArray>)
    ensures r.Ok? <==> 0 <= len && 0 <= offset && offset + len <= |src|
    ensures r.Ok? ==> r.value.store.readOnly && r.value.Bytes() == src[offset..offset + len]
  {
    var made :- New(len);
    var filled :- SetRange(made, 0, src, offset, len);
    Ok(Freeze(filled))
  }

  /** readOnly(src): the whole of src. */
  function ReadOnlyCopy(src: seq<bv8>): (r: CByteArray)
    ensures r.store.readOnly && r.Bytes() == src
  {
    ReadOnlySlice(src, 0, |src|).value
  }

  /** write(int): a relative put of the low byte at the buffer position. */
  function WriteByte(b: CByteArray, value: bv32): (r: Result<CByteArray>)
    ensures r.Ok? <==> !b.store.readOnly && b.store.position < b.Length()
    ensures r.Ok? ==> r.value.Bytes() == b.Bytes()[b.store.position := (value & 0xFF) as bv8]
    ensures r.Ok? ==> r.value.store.position == b.store.position + 1
  {
    (:- CheckWriteable(b.store);
    :- Need(b.store.position < b.Length(), BufferOverflow);
    Ok(CByteArray(b.store.(bytes := b.Bytes()[b.store.position := (value & 0xFF) as bv8],
                           position := b.store.position + 1))))
  }

  /** write(byte[]): a relative bulk put of all of bytes. */
  function WriteBytes(b: CByteArray, bytes: seq<bv8>): (r: Result<CByteArray>)
    ensures r.Ok? <==> !b.store.readOnly && b.store.position + |bytes| <= b.Length()
    ensures r.Ok? ==> r.value.Bytes() == b.Bytes()[..b.store.position] + bytes + b.Bytes()[b.store.position + |bytes|..]
    ensures r.Ok? ==> r.value.store.position == b.store.position + |bytes|
  {
    (:- CheckWriteable(b.store);
    var p := b.store.position;
    :- Need(p + |bytes| <= b.Length(), BufferOverflow);
    Ok(CByteArray(b.store.(bytes := b.Bytes()[..p] + bytes + b.Bytes()[p + |bytes|..], position := p + |bytes|))))
  }

  /** write(src, off, len): the loop runs i from off while i < len, so `len` acts as an
      end index: the bytes src[off..len] are appended, not src[off..off+len]. */
  function WriteFrom(b: CByteArray, src: CByteArray, off: int, len: int): (r: Result<CByteArray>)
  {
    (:- CheckWriteable(b.store);
    WriteLoop(b, src, off, len))
  }

  /** The loop of write(src, off, len), from iteration i. */
  function WriteLoop(b: CByteArray, src: CByteArray, i: int, len: int): (r: Result<CByteArray>)
    requires !b.store.readOnly
    decreases len - i
  {
    if i >= len then Ok(b)
    else
      var v :- Get(src, i);
      var p := b.store.position;
      if p < b.Length() then WriteLoop(CByteArray(b.store.(bytes := b.Bytes()[p := v], position := p + 1)), src, i + 1, len)
      else Err(BufferOverflow)
  }

  /** The effect of the write loop: exactly src[i..len] lands at the position. */
  lemma {:induction false} WriteLoopAppends(b: CByteArray, src: CByteArray, i: int, len: int)
    requires !b.store.readOnly
    ensures i >= len ==> WriteLoop(b, src, i, len) == Ok(b)
    ensures i < len ==>
      (WriteLoop(b, src, i, len).Ok? <==> 0 <= i && len <= src.Length() && b.store.position + (len - i) <= b.Length())
    ensures i < len && WriteLoop(b, src, i, len).Ok? ==>
      var p := b.store.position;
      var r := WriteLoop(b, src, i, len).value;
      r.Bytes() == b.Bytes()[..p] + src.Bytes()[i..len] + b.Bytes()[p + (len - i)..]
      && r.store.position == p + (len - i) && !r.store.readOnly
    decreases len - i
  {
    if i < len && 0 <= i < src.Length() && b.store.position < b.Length() {
      var p := b.store.position;
      var b' := CByteArray(b.store.(bytes := b.Bytes()[p := src.Bytes()[i]], position := p + 1));
      WriteLoopAppends(b', src, i + 1, len);
      if i + 1 < len && WriteLoop(b', src, i + 1, len).Ok? {
        var r := WriteLoop(b', src, i + 1, len).value;
        assert r.Bytes() == b'.Bytes()[..p + 1] + src.Bytes()[i + 1..len] + b'.Bytes()[p + 1 + (len - i - 1)..];
        assert b'.Bytes()[..p + 1] == b.Bytes()[..p] + [src.Bytes()[i]];
        assert src.Bytes()[i..len] == [src.Bytes()[i]] + src.Bytes()[i + 1..len];
      }
      if i + 1 == len {
        assert b'.Bytes() == b.Bytes()[..p] + src.Bytes()[i..len] + b.Bytes()[p + 1..];
      }
    }
  }

  /** write(src, off, len) as a whole: it succeeds exactly when the buffer is writable and
      src[off..len] is in range and fits, and then appends src[off..len] at the position. */
  lemma WriteFromCopiesUpToLen(b: CByteArray, src: CByteArray, off: int, len: int)
    ensures b.store.readOnly ==> WriteFrom(b, src, off, len) == Err(ReadOnly)
    ensures !b.store.readOnly && off >= len ==> WriteFrom(b, src, off, len) == Ok(b)
    ensures !b.store.readOnly && off < len ==>
      (WriteFrom(b, src, off, len).Ok? <==> 0 <= off && len <= src.Length() && b.store.position + (len - off) <= b.Length())
    ensures !b.store.readOnly && off < len && WriteFrom(b, src, off, len).Ok? ==>
      var p := b.store.position;
      WriteFrom(b, src, off, len).value.Bytes() == b.Bytes()[..p] + src.Bytes()[off..len] + b.Bytes()[p + (len - off)..]
      && !WriteFrom(b, src, off, len).value.store.readOnly
  {
    if !b.store.readOnly {
      WriteLoopAppends(b, src, off, len);
    }
  }

  /** write(src) = write(src, 0, src.length()): appends all of src. */
  function WriteAll(b: CByteArray, src: CByteArray): (r: Result<CByteArray>)
    ensures r.Ok? <==> !b.store.readOnly && (src.Length() == 0 || b.store.position + src.Length() <= b.Length())
    ensures src.Length() == 0 ==> r.Ok? ==> r.value == b
    ensures r.Ok? ==> r.value.Length() == b.Length() && !r.value.store.readOnly
    ensures r.Ok? && src.Length() > 0 ==>
      r.value.Bytes() == b.Bytes()[..b.store.position] + src.Bytes() + b.Bytes()[b.store.position + src.Length()..]
  {
    WriteFromCopiesUpToLen(b, src, 0, src.Length());
    assert src.Bytes()[0..src.Length()] == src.Bytes();
    WriteFrom(b, src, 0, src.Length())
  }

  /** toByteArray(): all bytes, in order, into a fresh heap array. */
  function ToByteArray(b: CByteArray): (r: seq<bv8>)
    ensures |r| == b.Length()
    ensures forall i :: 0 <= i < |r| ==> r[i] == b.Bytes()[i]
  {
    CopyLoop(b.Bytes(), seq(b.Length(), _ => 0), 0)
  }

  /** setting one byte and reading it back gives the byte; other positions read as before. */
  lemma SetThenGet(b: CByteArray, index: int, value: bv8, other: int)
    requires !b.store.readOnly && 0 <= index < b.Length()
    ensures Set(b, index, value).Ok?
    ensures Get(Set(b, index, value).value, index) == Ok(value)
    ensures other != index ==> Get(Set(b, index, value).value, other) == Get(b, other)
  {
  }

  /** toReadOnly leaves its source untouched (the copy is a distinct buffer) and the
      result refuses every write. */
  lemma ToReadOnlyFreezesCopy(b: CByteArray, index: int, value: bv8)
    ensures ToReadOnly(b).Bytes() == b.Bytes()
    ensures Set(ToReadOnly(b), index, value) == Err(ReadOnly)
    ensures !b.store.readOnly && 0 <= index < b.Length() ==> Set(b, index, value).Ok?
  {
  }

  /** Slicing a whole array read-only gives back its content; a read-only array can be
      sliced again, and the slice of a slice is the composed slice. */
  lemma SliceOfSlice(b: CByteArray, o1: int, l1: int, o2: int, l2: int)
    requires 0 < l1 && 0 <= o1 && o1 + l1 <= b.Length()
    requires 0 < l2 && 0 <= o2 && o2 + l2 <= l1
    ensures ToReadOnlySlice(b, o1, l1).Ok?
    ensures ToReadOnlySlice(ToReadOnlySlice(b, o1, l1).value, o2, l2).Ok?
    ensures ToReadOnlySlice(ToReadOnlySlice(b, o1, l1).value, o2, l2).value.Bytes() == b.Bytes()[o1 + o2..o1 + o2 + l2]
  {
  }
}
