/** CIntArray: the zeroable replacement for int[], four bytes per element in a buffer of
    capacity * 4 bytes. Every accessor goes through getInt/putInt at byte offset 4 * index,
    so the byte order of the buffer is never observable; the array is modelled on its int
    view, with the byte offset and its 32-bit overflow kept explicit. */
module SecureInts {
  import opened Errors
  import opened JavaInt

  const BYTES_PER_INT: nat := 4

  datatype CIntArray = CIntArray(words: seq<int32>, readOnly: bool) {
    /** sizeInBytes(): the capacity of the underlying byte buffer. */
    function SizeInBytes(): nat {
      BYTES_PER_INT * |words|
    }
    /** length(): sizeInBytes() / 4. */
    function Length(): nat {
      SizeInBytes() / BYTES_PER_INT
    }
  }

  /** The byte offset index * BYTES_PER_INT, computed in 32-bit Java arithmetic. */
  function Slot(index: int): (r: int)
    ensures r % 4 == 0
    ensures 0 <= index < 0x2000_0000 ==> r == 4 * index
  {
    Wrap32(index * BYTES_PER_INT)
  }

  /** Whether getInt/putInt at Slot(index) stays inside the buffer; when it does, the
      element touched is Slot(index) / 4. */
  predicate InRange(a: CIntArray, index: int) {
    0 <= Slot(index) && Slot(index) + 4 <= a.SizeInBytes()
  }

  /** The element an in-range access touches. */
  function Element(a: CIntArray, index: int): (k: nat)
    requires InRange(a, index)
    ensures k < |a.words|
  {
    Slot(index) / 4
  }

  /** An index inside the array is always in range and touches its own element (a Java
      buffer holds at most 2^31 - 1 bytes, so 4 * index cannot wrap). */
  lemma IndexInRange(a: CIntArray, index: int)
    requires 0 <= index < a.Length() && a.SizeInBytes() <= INT_MAX
    ensures InRange(a, index) && Element(a, index) == index
  {
  }

  /** after is before with element k replaced by v and every other element kept. */
  predicate UpdatedAt(after: seq<int32>, before: seq<int32>, k: int, v: int32) {
    |after| == |before| && 0 <= k < |before| && after[k] == v
    && forall j :: 0 <= j < |before| && j != k ==> after[j] == before[j]
  }

  /** checkWriteable(). */
  function CheckWriteable(a: CIntArray): (r: Outcome)
    ensures r.Fail? <==> a.readOnly
    ensures r.Fail? ==> r.error == ReadOnly
  {
    if a.readOnly then Fail(ReadOnly) else Pass
  }

  /** putInt at an in-range element. */
  function PutInt(a: CIntArray, index: int, v: int32): (r: CIntArray)
    requires InRange(a, index)
    ensures r.readOnly == a.readOnly
    ensures UpdatedAt(r.words, a.words, Element(a, index), v)
  {
    a.(words := a.words[Element(a, index) := v])
  }

  /** `new CIntArray(capacity)`: capacity * 4 bytes, the product wrapping in 32 bits, and
      ByteBuffer.allocateDirect refusing a negative size. */
  function New(capacity: int): (r: Result<CIntArray>)
    ensures r.Ok? <==> Slot(capacity) >= 0
    ensures 0 <= capacity < 0x2000_0000 ==> r.Ok? && r.value.Length() == capacity
    ensures r.Ok? ==> !r.value.readOnly && r.value.SizeInBytes() == Slot(capacity)
    ensures r.Ok? ==> forall i :: 0 <= i < |r.value.words| ==> r.value.words[i] == 0
  {
    if Slot(capacity) < 0 then Err(IllegalArgument)
    else Ok(CIntArray(seq(Slot(capacity) / 4, _ => 0), false))
  }

  /** The copy constructor: same elements, writable. */
  function CopyOf(a: CIntArray): (r: CIntArray)
    ensures r.words == a.words && !r.readOnly
  {
    CIntArray(a.words, false)
  }

  /** get(index): no write check; the range check is getInt's. */
  function Get(a: CIntArray, index: int): (r: Result<int32>)
    ensures r.Ok? <==> InRange(a, index)
    ensures r.Err? ==> r.error == IndexOutOfBounds
    ensures r.Ok? ==> r.value == a.words[Element(a, index)]
  {
    if InRange(a, index) then Ok(a.words[Element(a, index)]) else Err(IndexOutOfBounds)
  }

  /** set(index, value). */
  function Set(a: CIntArray, index: int, value: int32): (r: Result<CIntArray>)
    ensures a.readOnly ==> r == Err(ReadOnly)
    ensures r.Ok? <==> !a.readOnly && InRange(a, index)
    ensures r.Ok? ==> !r.value.readOnly && UpdatedAt(r.value.words, a.words, Element(a, index), value)
  {
    match CheckWriteable(a)
    case Fail(e) => Err(e)
    case Pass =>
      if InRange(a, index) then Ok(PutInt(a, index, value)) else Err(IndexOutOfBounds)
  }

  /** add(index, value) AS WRITTEN: the sum is computed into a local and then discarded;
      the element stored is `value` itself. */
  function Add(a: CIntArray, index: int, value: int32): (r: Result<CIntArray>)
    ensures a.readOnly ==> r == Err(ReadOnly)
    ensures r.Ok? <==> !a.readOnly && InRange(a, index)
    ensures r.Ok? ==> !r.value.readOnly && UpdatedAt(r.value.words, a.words, Element(a, index), value)
  {
    match CheckWriteable(a)
    case Fail(e) => Err(e)
    case Pass =>
      if InRange(a, index) then
        var v := a.words[Element(a, index)];
        var _ := IntAdd(v, value);
        Ok(PutInt(a, index, value))
      else Err(IndexOutOfBounds)
  }

  /** add(index, value) as its name promises: the element grows by value, wrapping as a Java int. */
  function AddSum(a: CIntArray, index: int, value: int32): (r: Result<CIntArray>)
    ensures a.readOnly ==> r == Err(ReadOnly)
    ensures r.Ok? <==> !a.readOnly && InRange(a, index)
    ensures r.Ok? ==> !r.value.readOnly
    ensures r.Ok? ==> UpdatedAt(r.value.words, a.words, Element(a, index), IntAdd(a.words[Element(a, index)], value))
  {
    match CheckWriteable(a)
    case Fail(e) => Err(e)
    case Pass =>
      if InRange(a, index) then Ok(PutInt(a, index, IntAdd(a.words[Element(a, index)], value)))
      else Err(IndexOutOfBounds)
  }

  /** The defect: adding 1 to an element holding 5 leaves 1, not 6. */
  lemma AddDiscardsSum(a: CIntArray)
    requires !a.readOnly && a.words == [5]
    ensures Add(a, 0, 1).Ok? && Add(a, 0, 1).value.words == [1]
    ensures AddSum(a, 0, 1).Ok? && AddSum(a, 0, 1).value.words == [6]
  {
    assert Slot(0) == 0;
  }

  /** The as-written add and the summing add store the same element exactly when the
      element was zero beforehand, which is why the defect is invisible on a fresh counter. */
  lemma AddAgreesWithSumOnlyFromZero(a: CIntArray, index: int, value: int32)
    requires !a.readOnly && InRange(a, index)
    ensures Add(a, index, value).Ok? && AddSum(a, index, value).Ok?
    ensures Add(a, index, value) == AddSum(a, index, value) <==> a.words[Element(a, index)] == 0
  {
    var k := Element(a, index);
    var w := a.words[k];
    SumEqualsAddendIffZero(w, value);
    if w == 0 {
      assert Add(a, index, value).value.words == AddSum(a, index, value).value.words;
    } else {
      assert Add(a, index, value).value.words[k] != AddSum(a, index, value).value.words[k];
    }
  }

  lemma SumEqualsAddendIffZero(w: int32, v: int32)
    ensures v == IntAdd(w, v) <==> w == 0
  {
  }

  /** subtract(index, value): the element becomes v - value, wrapping as a Java int. */
  function Subtract(a: CIntArray, index: int, value: int32): (r: Result<CIntArray>)
    ensures a.readOnly ==> r == Err(ReadOnly)
    ensures r.Ok? <==> !a.readOnly && InRange(a, index)
    ensures r.Ok? ==> !r.value.readOnly
    ensures r.Ok? ==> UpdatedAt(r.value.words, a.words, Element(a, index), IntSub(a.words[Element(a, index)], value))
  {
    match CheckWriteable(a)
    case Fail(e) => Err(e)
    case Pass =>
      if InRange(a, index) then Ok(PutInt(a, index, IntSub(a.words[Element(a, index)], value)))
      else Err(IndexOutOfBounds)
  }

  /** incrementAndGet(index): the element grows by one, wrapping as a Java int, and the new value is returned. */
  function IncrementAndGet(a: CIntArray, index: int): (r: Result<(CIntArray, int32)>)
    ensures a.readOnly ==> r == Err(ReadOnly)
    ensures r.Ok? <==> !a.readOnly && InRange(a, index)
    ensures r.Ok? ==> !r.value.0.readOnly
    ensures r.Ok? ==> r.value.1 == IntAdd(a.words[Element(a, index)], 1)
    ensures r.Ok? ==> UpdatedAt(r.value.0.words, a.words, Element(a, index), r.value.1)
  {
    match CheckWriteable(a)
    case Fail(e) => Err(e)
    case Pass =>
      if InRange(a, index) then
        var v := IntAdd(a.words[Element(a, index)], 1);
        Ok((PutInt(a, index, v), v))
      else Err(IndexOutOfBounds)
  }

  /** increment(index): the same update, without the result. */
  function Increment(a: CIntArray, index: int): (r: Result<CIntArray>)
    ensures r.Ok? <==> !a.readOnly && InRange(a, index)
    ensures r.Ok? ==> !r.value.readOnly
    ensures r.Ok? ==> UpdatedAt(r.value.words, a.words, Element(a, index), IntAdd(a.words[Element(a, index)], 1))
  {
    var (b, _) :- IncrementAndGet(a, index);
    Ok(b)
  }

  /** decrementAndGet(index): the element shrinks by one, wrapping as a Java int, and the new value is returned. */
  function DecrementAndGet(a: CIntArray, index: int): (r: Result<(CIntArray, int32)>)
    ensures a.readOnly ==> r == Err(ReadOnly)
    ensures r.Ok? <==> !a.readOnly && InRange(a, index)
    ensures r.Ok? ==> !r.value.0.readOnly
    ensures r.Ok? ==> r.value.1 == IntSub(a.words[Element(a, index)], 1)
    ensures r.Ok? ==> UpdatedAt(r.value.0.words, a.words, Element(a, index), r.value.1)
  {
    match CheckWriteable(a)
    case Fail(e) => Err(e)
    case Pass =>
      if InRange(a, index) then
        var v := IntSub(a.words[Element(a, index)], 1);
        Ok((PutInt(a, index, v), v))
      else Err(IndexOutOfBounds)
  }

  /** decrement(index). */
  function Decrement(a: CIntArray, index: int): (r: Result<CIntArray>)
    ensures r.Ok? <==> !a.readOnly && InRange(a, index)
    ensures r.Ok? ==> !r.value.readOnly
    ensures r.Ok? ==> UpdatedAt(r.value.words, a.words, Element(a, index), IntSub(a.words[Element(a, index)], 1))
  {
    var (b, _) :- DecrementAndGet(a, index);
    Ok(b)
  }

  /** Increment and decrement undo each other. */
  lemma IncrementThenDecrement(a: CIntArray, index: int)
    requires !a.readOnly && InRange(a, index)
    ensures Increment(a, index).Ok?
    ensures Decrement(Increment(a, index).value, index).Ok?
    ensures Decrement(Increment(a, index).value, index).value == a
  {
    var b := Increment(a, index).value;
    var c := Decrement(b, index).value;
    assert c.words == a.words;
  }

  /** fill(value): every element becomes value. */
  function Fill(a: CIntArray, value: int32): (r: Result<CIntArray>)
    ensures r.Ok? <==> !a.readOnly
    ensures r.Ok? ==> !r.value.readOnly && |r.value.words| == |a.words|
    ensures r.Ok? ==> forall i :: 0 <= i < |r.value.words| ==> r.value.words[i] == value
  {
    match CheckWriteable(a)
    case Fail(e) => Err(e)
    case Pass =>
      Ok(FillLoop(a, value, 0))
  }

  /** The loop of fill, from element i on. */
  function FillLoop(a: CIntArray, value: int32, i: nat): (r: CIntArray)
    requires i <= |a.words|
    ensures |r.words| == |a.words| && r.readOnly == a.readOnly
    ensures forall k :: 0 <= k < i ==> r.words[k] == a.words[k]
    ensures forall k :: i <= k < |a.words| ==> r.words[k] == value
    decreases |a.words| - i
  {
    if i == |a.words| then a else FillLoop(a.(words := a.words[i := value]), value, i + 1)
  }

  /** The element pass i of copy writes: `(i + toOffset) * BYTES_PER_INT`, the sum and the
      product both wrapping ints, read back as an element the way putInt places it. */
  function Target(toOffset: int32, i: int): int {
    Slot(Wrap32(i + toOffset)) / 4
  }

  /** Pass i of copy can run: `src[i + srcOffset]` (an int sum) is inside src, and putInt at
      the wrapped byte offset is inside the buffer. */
  predicate CopyStepOk(a: CIntArray, toOffset: int32, src: seq<int32>, srcOffset: int32, i: int) {
    0 <= Wrap32(i + srcOffset) < |src| && InRange(a, Wrap32(i + toOffset))
  }

  /** No pass after i writes the element pass i writes, so its value is the one left. */
  predicate LastWriter(toOffset: int32, i: int, length: int) {
    forall j :: i < j < length ==> Target(toOffset, j) != Target(toOffset, i)
  }

  /** The loop of copy from pass i on, over the elements w of a (a gives the buffer size the
      range checks use). The first pass that cannot run ends it with the error. */
  function CopyLoop(a: CIntArray, w: seq<int32>, toOffset: int32, src: seq<int32>, srcOffset: int32, i: nat, length: int32): (r: Result<seq<int32>>)
    requires |w| == |a.words|
    ensures r.Ok? <==> forall j :: i <= j < length ==> CopyStepOk(a, toOffset, src, srcOffset, j)
    ensures r.Err? ==> r.error == IndexOutOfBounds
    ensures r.Ok? ==> |r.value| == |w|
    decreases length - i
  {
    if i >= length then Ok(w)
    else if !CopyStepOk(a, toOffset, src, srcOffset, i) then Err(IndexOutOfBounds)
    else CopyLoop(a, w[Target(toOffset, i) := src[Wrap32(i + srcOffset)]], toOffset, src, srcOffset, i + 1, length)
  }

  /** An element no pass from i on writes keeps its value. */
  lemma {:induction false} CopyLoopKeeps(a: CIntArray, w: seq<int32>, toOffset: int32, src: seq<int32>, srcOffset: int32, i: nat, length: int32, k: int)
    requires |w| == |a.words| && CopyLoop(a, w, toOffset, src, srcOffset, i, length).Ok? && 0 <= k < |w|
    requires forall j :: i <= j < length ==> Target(toOffset, j) != k
    ensures CopyLoop(a, w, toOffset, src, srcOffset, i, length).value[k] == w[k]
    decreases length - i
  {
    if i < length {
      var w' := w[Target(toOffset, i) := src[Wrap32(i + srcOffset)]];
      assert CopyLoop(a, w, toOffset, src, srcOffset, i, length) == CopyLoop(a, w', toOffset, src, srcOffset, i + 1, length);
      CopyLoopKeeps(a, w', toOffset, src, srcOffset, i + 1, length, k);
    }
  }

  /** The element of pass j, when no later pass overwrites it, holds src[j + srcOffset]. */
  lemma {:induction false} CopyLoopLast(a: CIntArray, w: seq<int32>, toOffset: int32, src: seq<int32>, srcOffset: int32, i: nat, length: int32, j: int)
    requires |w| == |a.words| && CopyLoop(a, w, toOffset, src, srcOffset, i, length).Ok?
    requires i <= j < length && LastWriter(toOffset, j, length)
    ensures CopyStepOk(a, toOffset, src, srcOffset, j)
    ensures CopyLoop(a, w, toOffset, src, srcOffset, i, length).value[Target(toOffset, j)] == src[Wrap32(j + srcOffset)]
    decreases length - i
  {
    assert CopyStepOk(a, toOffset, src, srcOffset, i);
    var t := Target(toOffset, i);
    var w' := w[t := src[Wrap32(i + srcOffset)]];
    assert CopyLoop(a, w, toOffset, src, srcOffset, i, length) == CopyLoop(a, w', toOffset, src, srcOffset, i + 1, length);
    if j == i {
      CopyLoopKeeps(a, w', toOffset, src, srcOffset, i + 1, length, t);
    } else {
      CopyLoopLast(a, w', toOffset, src, srcOffset, i + 1, length, j);
    }
  }

  /** What the loop leaves: an element no pass from i on writes keeps its value, and the
      element of a pass no later pass overwrites holds that pass's source element. */
  lemma CopyLoopWrites(a: CIntArray, w: seq<int32>, toOffset: int32, src: seq<int32>, srcOffset: int32, i: nat, length: int32)
    requires |w| == |a.words| && CopyLoop(a, w, toOffset, src, srcOffset, i, length).Ok?
    ensures var r := CopyLoop(a, w, toOffset, src, srcOffset, i, length).value;
            forall k :: 0 <= k < |w| && (forall j :: i <= j < length ==> Target(toOffset, j) != k) ==> r[k] == w[k]
    ensures var r := CopyLoop(a, w, toOffset, src, srcOffset, i, length).value;
            forall j :: i <= j < length && CopyStepOk(a, toOffset, src, srcOffset, j) && LastWriter(toOffset, j, length)
              ==> r[Target(toOffset, j)] == src[Wrap32(j + srcOffset)]
  {
    forall k | 0 <= k < |w| && (forall j :: i <= j < length ==> Target(toOffset, j) != k)
      ensures CopyLoop(a, w, toOffset, src, srcOffset, i, length).value[k] == w[k]
    {
      CopyLoopKeeps(a, w, toOffset, src, srcOffset, i, length, k);
    }
    forall j | i <= j < length && CopyStepOk(a, toOffset, src, srcOffset, j) && LastWriter(toOffset, j, length)
      ensures CopyLoop(a, w, toOffset, src, srcOffset, i, length).value[Target(toOffset, j)] == src[Wrap32(j + srcOffset)]
    {
      CopyLoopLast(a, w, toOffset, src, srcOffset, i, length, j);
    }
  }

  /** copy(toOffset, src, srcOffset, length): refused when read-only; otherwise pass i puts
      src[i + srcOffset] at element i + toOffset, with the sums and the byte offset wrapping
      as in set. It succeeds exactly when every pass can run; an element keeps the value of
      the last pass that writes it, and one no pass writes is kept. */
  function Copy(a: CIntArray, toOffset: int32, src: seq<int32>, srcOffset: int32, length: int32): (r: Result<CIntArray>)
    ensures a.readOnly ==> r == Err(ReadOnly)
    ensures r.Ok? <==> !a.readOnly && forall i :: 0 <= i < length ==> CopyStepOk(a, toOffset, src, srcOffset, i)
    ensures r.Err? ==> r.error == ReadOnly || r.error == IndexOutOfBounds
    ensures r.Ok? ==> !r.value.readOnly && |r.value.words| == |a.words|
    ensures r.Ok? ==> forall i :: 0 <= i < length && CopyStepOk(a, toOffset, src, srcOffset, i) && LastWriter(toOffset, i, length)
                                  ==> r.value.words[Target(toOffset, i)] == src[Wrap32(i + srcOffset)]
    ensures r.Ok? ==> forall k :: 0 <= k < |a.words| && (forall i :: 0 <= i < length ==> Target(toOffset, i) != k)
                                  ==> r.value.words[k] == a.words[k]
  {
    match CheckWriteable(a)
    case Fail(e) => Err(e)
    case Pass =>
      match CopyLoop(a, a.words, toOffset, src, srcOffset, 0, length)
      case Err(e) => Err(e)
      case Ok(w) =>
        CopyLoopWrites(a, a.words, toOffset, src, srcOffset, 0, length);
        Ok(a.(words := w))
  }

  /** Away from the wraps (non-negative offsets, targets below 2^29 and a src an int can
      index), pass i writes element toOffset + i from src[srcOffset + i], and can run exactly
      when both of those are in bounds. */
  lemma CopyStepInBounds(a: CIntArray, toOffset: int32, src: seq<int32>, srcOffset: int32, length: int32, i: int)
    requires 0 <= toOffset && 0 <= srcOffset && toOffset + length <= 0x2000_0000 && |src| <= INT_MAX
    requires 0 <= i < length
    ensures Target(toOffset, i) == toOffset + i
    ensures CopyStepOk(a, toOffset, src, srcOffset, i) <==> i + srcOffset < |src| && toOffset + i < |a.words|
    ensures CopyStepOk(a, toOffset, src, srcOffset, i) ==> Wrap32(i + srcOffset) == srcOffset + i
  {
    assert Wrap32(i + toOffset) == i + toOffset;
    if i + srcOffset <= INT_MAX {
      assert Wrap32(i + srcOffset) == i + srcOffset;
    } else {
      assert Wrap32(i + srcOffset) < 0;
    }
  }

  /** Away from the wraps, copy succeeds exactly when both ranges are in bounds. */
  lemma CopyInBoundsSucceeds(a: CIntArray, toOffset: int32, src: seq<int32>, srcOffset: int32, length: int32)
    requires 0 <= toOffset && 0 <= srcOffset && 0 < length && toOffset + length <= 0x2000_0000 && |src| <= INT_MAX
    ensures Copy(a, toOffset, src, srcOffset, length).Ok? <==>
              !a.readOnly && srcOffset + length <= |src| && toOffset + length <= |a.words|
  {
    CopyStepInBounds(a, toOffset, src, srcOffset, length, length - 1);
    if !a.readOnly && srcOffset + length <= |src| && toOffset + length <= |a.words| {
      forall i | 0 <= i < length
        ensures CopyStepOk(a, toOffset, src, srcOffset, i)
      {
        CopyStepInBounds(a, toOffset, src, srcOffset, length, i);
      }
    }
  }

  /** Away from the wraps, element k after a successful copy is src[srcOffset + k - toOffset]
      inside the target range and a.words[k] outside it. */
  lemma CopyInBoundsAt(a: CIntArray, toOffset: int32, src: seq<int32>, srcOffset: int32, length: int32, k: int)
    requires 0 <= toOffset && 0 <= srcOffset && 0 < length && toOffset + length <= 0x2000_0000 && |src| <= INT_MAX
    requires !a.readOnly && CopyLoop(a, a.words, toOffset, src, srcOffset, 0, length).Ok? && 0 <= k < |a.words|
    ensures toOffset <= k < toOffset + length ==>
              k - toOffset + srcOffset < |src|
              && CopyLoop(a, a.words, toOffset, src, srcOffset, 0, length).value[k] == src[k - toOffset + srcOffset]
    ensures !(toOffset <= k < toOffset + length) ==> CopyLoop(a, a.words, toOffset, src, srcOffset, 0, length).value[k] == a.words[k]
  {
    if toOffset <= k < toOffset + length {
      var i := k - toOffset;
      CopyStepInBounds(a, toOffset, src, srcOffset, length, i);
      forall j | i < j < length
        ensures Target(toOffset, j) != Target(toOffset, i)
      {
        CopyStepInBounds(a, toOffset, src, srcOffset, length, j);
      }
      CopyLoopLast(a, a.words, toOffset, src, srcOffset, 0, length, i);
    } else {
      forall j | 0 <= j < length
        ensures Target(toOffset, j) != k
      {
        CopyStepInBounds(a, toOffset, src, srcOffset, length, j);
      }
      CopyLoopKeeps(a, a.words, toOffset, src, srcOffset, 0, length, k);
    }
  }

  /** Away from the wraps, a successful copy puts src[srcOffset .. srcOffset + length) at
      toOffset and keeps the rest. */
  lemma CopyInBounds(a: CIntArray, toOffset: int32, src: seq<int32>, srcOffset: int32, length: int32)
    requires 0 <= toOffset && 0 <= srcOffset && 0 < length && toOffset + length <= 0x2000_0000 && |src| <= INT_MAX
    ensures Copy(a, toOffset, src, srcOffset, length).Ok? ==>
              srcOffset + length <= |src| && toOffset + length <= |a.words|
              && Copy(a, toOffset, src, srcOffset, length).value.words
                == a.words[..toOffset] + src[srcOffset..srcOffset + length] + a.words[toOffset + length..]
  {
    CopyInBoundsSucceeds(a, toOffset, src, srcOffset, length);
    if Copy(a, toOffset, src, srcOffset, length).Ok? {
      var r := CopyLoop(a, a.words, toOffset, src, srcOffset, 0, length).value;
      assert Copy(a, toOffset, src, srcOffset, length).value.words == r;
      var w := a.words[..toOffset] + src[srcOffset..srcOffset + length] + a.words[toOffset + length..];
      forall k | 0 <= k < |a.words|
        ensures r[k] == w[k]
      {
        CopyInBoundsAt(a, toOffset, src, srcOffset, length, k);
      }
      assert r == w;
    }
  }

  /** Copying one element is set of that element, wrap included. */
  lemma CopyOneIsSet(a: CIntArray, toOffset: int32, src: seq<int32>, srcOffset: int32)
    requires 0 <= srcOffset < |src|
    ensures Copy(a, toOffset, src, srcOffset, 1) == Set(a, toOffset, src[srcOffset])
  {
    assert Wrap32(0 + toOffset) == toOffset && Wrap32(0 + srcOffset) == srcOffset;
    if !a.readOnly && InRange(a, toOffset) {
      assert CopyStepOk(a, toOffset, src, srcOffset, 0);
    }
  }

  /** The wrap reaches copy as it reaches set: on a writable one-element array,
      copy(0x4000_0000, [v], 0, 1) writes element 0, since (0 + 2^30) * 4 is 0 as an int. */
  lemma CopyWrapsToFirst(v: int32)
    ensures Copy(CIntArray([7], false), 0x4000_0000, [v], 0, 1) == Ok(CIntArray([v], false))
  {
    var a := CIntArray([7], false);
    assert Slot(0x4000_0000) == 0 && InRange(a, 0x4000_0000) && Element(a, 0x4000_0000) == 0;
    CopyOneIsSet(a, 0x4000_0000, [v], 0);
    assert a.words[0 := v] == [v];
  }

  /** zero(): every element becomes 0, read-only or not. */
  function Zero(a: CIntArray): (r: CIntArray)
    ensures |r.words| == |a.words| && r.readOnly == a.readOnly
    ensures forall i :: 0 <= i < |r.words| ==> r.words[i] == 0
  {
    a.(words := seq(|a.words|, _ => 0))
  }

  /** Every mutator refuses a read-only array; reading and zeroing still work. */
  lemma MutatorsRefuseReadOnly(a: CIntArray, index: int, value: int32)
    requires a.readOnly
    ensures Set(a, index, value).Err? && Add(a, index, value).Err? && Subtract(a, index, value).Err?
    ensures Increment(a, index).Err? && IncrementAndGet(a, index).Err?
    ensures Decrement(a, index).Err? && DecrementAndGet(a, index).Err? && Fill(a, value).Err?
    ensures InRange(a, index) ==> Get(a, index).Ok?
    ensures Zero(a).readOnly
  {
  }

  /** set followed by get round-trips; other elements keep their values. */
  lemma SetThenGet(a: CIntArray, index: int, value: int32, other: int)
    requires !a.readOnly && 0 <= index < a.Length() && 0 <= other < a.Length()
    requires a.SizeInBytes() <= INT_MAX
    ensures Set(a, index, value).Ok?
    ensures Get(Set(a, index, value).value, index) == Ok(value)
    ensures other != index ==> Get(Set(a, index, value).value, other) == Get(a, other)
  {
    IndexInRange(a, index);
    IndexInRange(a, other);
  }

  /** toArray(): the elements in order. */
  function ToArray(a: CIntArray): (r: seq<int32>)
    ensures |r| == a.Length()
    ensures forall i :: 0 <= i < |r| ==> r[i] == a.words[i]
  {
    a.words
  }
}
