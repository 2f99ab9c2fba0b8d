/** Argon2BytesGenerator: the parameter checks of init, the memory geometry, the fill schedule
    with its addressing rules, the variable-length hash H' and the final digest (RFC 9106,
    sections 3.2-3.4). Memory is a sequence of blocks; the compression G is the `perm`
    parameter of Argon2Block and Blake2b is the `blake` parameter below. */
module Argon2 {
  import opened Errors
  import opened JavaInt
  import opened Bits
  import opened CUtils
  import opened SecureBytes
  import opened Argon2Block
  import opened Argon2Params

  const SYNC_POINTS: nat := 4
  const MIN_PARALLELISM: int := 1
  const MAX_PARALLELISM: int := 16777216
  const MIN_OUTLEN: int := 4
  const MIN_ITERATIONS: int := 1
  const ADDRESSES_IN_BLOCK: nat := 128
  const PREHASH_DIGEST_LENGTH: nat := 64
  const PREHASH_SEED_LENGTH: nat := 72

  // Parameter checks and geometry

  /** init(parameters): the lane count, the memory size and the pass count are checked in this
      order, each failure an IllegalStateException. */
  function InitCheck(p: Params): (r: Outcome)
    ensures r.Pass? <==> MIN_PARALLELISM <= p.lanes <= MAX_PARALLELISM && p.memory >= 2 * p.lanes
                         && p.iterations >= MIN_ITERATIONS
    ensures r.Fail? ==> r.error == IllegalState
  {
    if p.lanes < MIN_PARALLELISM then Fail(IllegalState)
    else if p.lanes > MAX_PARALLELISM then Fail(IllegalState)
    else if p.memory < 2 * p.lanes then Fail(IllegalState)
    else if p.iterations < MIN_ITERATIONS then Fail(IllegalState)
    else Pass
  }

  /** The memory layout: `lanes` rows of four segments of `segmentLength` blocks each. */
  datatype Geometry = Geometry(lanes: nat, segmentLength: nat) {
    function LaneLength(): nat {
      segmentLength * 4
    }
    function Blocks(): nat {
      segmentLength * (lanes * 4)
    }
  }

  predicate ValidGeometry(g: Geometry) {
    1 <= g.lanes <= MAX_PARALLELISM && g.segmentLength >= 2 && g.Blocks() <= INT_MAX
  }

  /** doInit: the memory is raised to 8 blocks per lane and then rounded down to a multiple
      of 4 * lanes, so that every segment has the same length. */
  function DoInit(p: Params): (g: Geometry)
    requires InitCheck(p).Pass?
    ensures ValidGeometry(g) && g.lanes == p.lanes
    ensures g.Blocks() == g.lanes * g.LaneLength() && g.Blocks() >= 8 * p.lanes
    ensures g.Blocks() <= p.memory || g.Blocks() == 8 * p.lanes
    ensures g.Blocks() + 4 * p.lanes > p.memory
  {
    var memoryBlocks: nat := if p.memory < 8 * p.lanes then 8 * p.lanes else p.memory;
    Aligned(memoryBlocks, p.lanes)
  }

  /** `memoryBlocks` rounded down to whole segments. */
  function Aligned(m: nat, lanes: nat): (g: Geometry)
    requires 1 <= lanes <= MAX_PARALLELISM && 8 * lanes <= m <= INT_MAX
    ensures ValidGeometry(g) && g.lanes == lanes && g.segmentLength == m / (lanes * 4)
    ensures g.Blocks() <= m < g.Blocks() + 4 * lanes && g.Blocks() == g.lanes * g.LaneLength()
    ensures g.Blocks() >= 8 * lanes
  {
    var g := Geometry(lanes, m / (lanes * 4));
    SegmentBounds(m, lanes);
    BlocksByLanes(g);
    g
  }

  lemma BlocksByLanes(g: Geometry)
    ensures g.Blocks() == g.lanes * g.LaneLength()
  {
    assert g.segmentLength * (g.lanes * 4) == g.lanes * (g.segmentLength * 4);
  }

  lemma SegmentBounds(m: nat, lanes: nat)
    requires lanes >= 1 && m >= 8 * lanes
    ensures var s := m / (lanes * 4);
            s >= 2 && s * (lanes * 4) <= m < s * (lanes * 4) + lanes * 4 && s * (lanes * 4) >= 8 * lanes
  {
    var d := lanes * 4;
    var s := m / d;
    assert m == d * s + m % d;
    if s < 2 {
      MulMonotone(d, s, 1);
    } else {
      MulMonotone(d, 2, s);
    }
  }

  /** The generator after init: the parameters, the geometry and the memory blocks. */
  datatype Generator = Generator(params: Params, geometry: Geometry, memory: seq<Block>)

  predicate GeneratorOk(gen: Generator) {
    ValidGeometry(gen.geometry) && gen.params.lanes == gen.geometry.lanes
    && gen.params.iterations >= MIN_ITERATIONS && |gen.memory| == gen.geometry.Blocks()
  }

  /** init(parameters): refused parameters give IllegalState; accepted ones give all-zero
      memory of the aligned size. */
  function Init(p: Params): (r: Result<Generator>)
    ensures r.Ok? <==> InitCheck(p).Pass?
    ensures r.Err? ==> r.error == IllegalState
    ensures r.Ok? ==> GeneratorOk(r.value) && r.value.params == p && r.value.geometry == DoInit(p)
    ensures r.Ok? ==> forall k :: 0 <= k < |r.value.memory| ==> r.value.memory[k] == ZeroBlock()
  {
    (:- InitCheck(p);
    var g := DoInit(p);
    Ok(Generator(p, g, seq(g.Blocks(), _ => ZeroBlock()))))
  }

  // Position and addressing rules

  datatype Position = Position(pass: nat, lane: nat, slice: nat)

  /** Argon2i always takes reference indices from address blocks; Argon2id only in the first
      half of the first pass; Argon2d never. */
  predicate IsDataIndependentAddressing(argonType: int32, pos: Position) {
    argonType == ARGON2_I || (argonType == ARGON2_ID && pos.pass == 0 && pos.slice < 2)
  }

  /** Version 0x13 xors new blocks into the old ones after the first pass. */
  predicate IsWithXor(version: int32, pos: Position) {
    !(pos.pass == 0 || version == VERSION_10)
  }

  /** The first two blocks of every lane are filled from H0 before the first segment. */
  function StartingIndex(pos: Position): nat {
    if pos.pass == 0 && pos.slice == 0 then 2 else 0
  }

  /** The block before `cur` in the same lane, cyclically: the last block of the lane for the
      first one. */
  function PrevOffset(g: Geometry, cur: nat): (prev: nat)
    requires g.LaneLength() > 0
    ensures prev / g.LaneLength() == cur / g.LaneLength()
    ensures cur % g.LaneLength() == 0 ==> prev % g.LaneLength() == g.LaneLength() - 1
    ensures cur % g.LaneLength() != 0 ==> prev + 1 == cur
  {
    var l := g.LaneLength();
    if cur % l == 0 then
      LaneWrapsBack(cur, l);
      cur + l - 1
    else
      LaneStepsBack(cur, l);
      cur - 1
  }

  lemma LaneWrapsBack(cur: nat, l: nat)
    requires l > 0 && cur % l == 0
    ensures (cur + l - 1) / l == cur / l && (cur + l - 1) % l == l - 1
  {
    ModUnique(cur + l - 1, l, cur / l, l - 1);
  }

  lemma LaneStepsBack(cur: nat, l: nat)
    requires l > 0 && cur % l != 0
    ensures cur >= 1 && (cur - 1) / l == cur / l
  {
    ModUnique(cur - 1, l, cur / l, cur % l - 1);
  }

  /** The lane of the reference block: the high word of the pseudo-random value modulo the lane
      count, except in the first slice of the first pass, where only the own lane is ready. */
  function RefLane(lanes: nat, pos: Position, pseudoRandom: bv64): (r: nat)
    requires lanes >= 1 && pos.lane < lanes
    ensures r < lanes
    ensures pos.pass == 0 && pos.slice == 0 ==> r == pos.lane
    ensures !(pos.pass == 0 && pos.slice == 0) ==> r == (pseudoRandom >> 32) as int % lanes
  {
    if pos.pass == 0 && pos.slice == 0 then pos.lane else (pseudoRandom >> 32) as int % lanes
  }

  /** The calls fillSegment makes: a slice of the lane, an index inside the segment at or past
      the starting index, and the own lane whenever the first slice of the first pass is filled. */
  predicate Reachable(g: Geometry, pos: Position, index: nat, sameLane: bool) {
    pos.slice < SYNC_POINTS && StartingIndex(pos) <= index < g.segmentLength
    && (pos.pass == 0 && pos.slice == 0 ==> sameLane)
  }

  /** The number of blocks the reference may be drawn from (RFC 9106 section 3.4.1.2). */
  function RefAreaSize(g: Geometry, pos: Position, index: nat, sameLane: bool): int {
    if pos.pass == 0 then
      if sameLane then pos.slice * g.segmentLength + index - 1
      else pos.slice * g.segmentLength + (if index == 0 then -1 else 0)
    else
      if sameLane then g.LaneLength() - g.segmentLength + index - 1
      else g.LaneLength() - g.segmentLength + (if index == 0 then -1 else 0)
  }

  /** Where the reference area starts: the lane start in the first pass, otherwise the segment
      after the current one. */
  function StartPosition(g: Geometry, pos: Position): nat
    requires g.LaneLength() > 0
  {
    if pos.pass == 0 then 0 else ((pos.slice + 1) * g.segmentLength) % g.LaneLength()
  }

  /** The position inside the reference area, counted from its start: the low word x of the
      pseudo-random value is squared and scaled so that recent blocks are likelier. `x * x` is
      a long product and may wrap to a negative long; `>>> 32` reads it unsigned. */
  function RelativePosition(size: int, pseudoRandom: bv64): (rel: nat)
    requires 1 <= size <= INT_MAX
    ensures rel < size
  {
    var x := LowWord(pseudoRandom);
    RelativeBounds(size, x);
    var y := UnsignedLong(Wrap64(x * x)) / TWO_32;
    size - 1 - (size * y) / TWO_32
  }

  /** `w & 0xFFFFFFFFL`: the low word of a long, its value modulo 2^32. */
  function LowWord(w: bv64): (r: nat)
    ensures r < TWO_32
  {
    (w as int) % TWO_32
  }

  lemma RelativeBounds(size: int, x: int)
    requires 1 <= size <= INT_MAX && 0 <= x < TWO_32
    ensures 0 <= x * x < TWO_64
    ensures var y := UnsignedLong(Wrap64(x * x)) / TWO_32;
            0 <= y < TWO_32 && 0 <= size * y <= LONG_MAX && 0 <= size - 1 - (size * y) / TWO_32 < size
  {
    SquareBelow(x);
    var y := UnsignedLong(Wrap64(x * x)) / TWO_32;
    ScaleBelow(size, y);
  }

  /** The square of a low word is a long product that wraps at most once, and read unsigned
      it is the exact square. */
  lemma SquareBelow(x: int)
    requires 0 <= x < TWO_32
    ensures 0 <= x * x < TWO_64 && UnsignedLong(Wrap64(x * x)) == x * x
  {
    MulMonotone(x, x, TWO_32);
    MulMonotone(TWO_32, x, TWO_32);
  }

  /** size * y, with y < 2^32, is a long product that cannot overflow, and its high word is
      below size. */
  lemma ScaleBelow(size: nat, y: int)
    requires 0 <= y < TWO_32
    ensures 0 <= size * y < TWO_32 * size + 1 && 0 <= (size * y) / TWO_32
    ensures size >= 1 ==> (size * y) / TWO_32 < size
  {
    MulMonotone(size, y, TWO_32);
    if size >= 1 {
      MulMonotone(size, y + 1, TWO_32);
    }
  }

  /** A block of the lane is `behind` blocks before `cur` in the cyclic order of the lane. */
  function Behind(g: Geometry, cur: nat, col: nat): int {
    if col <= cur then cur - col else cur + g.LaneLength() - col
  }

  /** The reference-area rules of RFC 9106 section 3.4.1.2, with cur the current column
      (slice * segmentLength + index):
      - first pass, own lane: a block already filled, not the previous one;
      - first pass, other lane: a block of a finished slice; at index 0 not the last of them;
      - later passes: among the last laneLength - segmentLength + index blocks before cur,
        never cur nor the previous block in the own lane, and never a block of the slice
        being filled concurrently in another lane (at index 0 also not the block before it). */
  predicate InReferenceArea(g: Geometry, pos: Position, index: nat, sameLane: bool, col: nat) {
    var cur := pos.slice * g.segmentLength + index;
    col < g.LaneLength()
    && (pos.pass == 0 && sameLane ==> col + 2 <= cur)
    && (pos.pass == 0 && !sameLane ==> col + (if index == 0 then 2 else 1) <= pos.slice * g.segmentLength)
    && (pos.pass > 0 && sameLane ==> 2 <= Behind(g, cur, col) <= g.LaneLength() - g.segmentLength + index)
    && (pos.pass > 0 && !sameLane ==>
          index + (if index == 0 then 2 else 1) <= Behind(g, cur, col) <= g.LaneLength() - g.segmentLength + index)
  }

  /** getRefColumn, with the sum taken modulo laneLength as RFC 9106 intends. */
  function RefColumn(g: Geometry, pos: Position, index: nat, pseudoRandom: bv64, sameLane: bool): (col: nat)
    requires ValidGeometry(g) && Reachable(g, pos, index, sameLane)
    ensures col < g.LaneLength()
    ensures InReferenceArea(g, pos, index, sameLane, col)
  {
    AreaSizeBounds(g, pos, index, sameLane);
    var rel := RelativePosition(RefAreaSize(g, pos, index, sameLane), pseudoRandom);
    AreaHolds(g, pos, index, sameLane, rel);
    (StartPosition(g, pos) + rel) % g.LaneLength()
  }

  /** slice * segmentLength for the four slices. */
  lemma SliceStart(g: Geometry, slice: nat)
    requires slice < SYNC_POINTS
    ensures slice * g.segmentLength == if slice == 0 then 0 else if slice == 1 then g.segmentLength
                                       else if slice == 2 then 2 * g.segmentLength else 3 * g.segmentLength
  {
  }

  /** In the calls fillSegment makes the area is never empty and fits an int. */
  lemma AreaSizeBounds(g: Geometry, pos: Position, index: nat, sameLane: bool)
    requires ValidGeometry(g) && Reachable(g, pos, index, sameLane)
    ensures 1 <= RefAreaSize(g, pos, index, sameLane) < g.LaneLength() <= INT_MAX
  {
    SliceStart(g, pos.slice);
    MulMonotone(g.segmentLength, 1, g.lanes);
  }

  /** Every relative position inside the area lands on a column the rules allow. */
  lemma AreaHolds(g: Geometry, pos: Position, index: nat, sameLane: bool, rel: nat)
    requires ValidGeometry(g) && Reachable(g, pos, index, sameLane)
    requires rel < RefAreaSize(g, pos, index, sameLane)
    ensures InReferenceArea(g, pos, index, sameLane, (StartPosition(g, pos) + rel) % g.LaneLength())
  {
    SliceStart(g, pos.slice);
    if pos.pass == 0 {
      ModUnique(rel, g.LaneLength(), 0, rel);
    } else {
      LaterPassStart(g, pos);
      LaterPassArea(g, pos, index, sameLane, rel, StartPosition(g, pos));
    }
  }

  /** After the first pass the area starts at the segment after the current one. */
  lemma LaterPassStart(g: Geometry, pos: Position)
    requires ValidGeometry(g) && pos.pass > 0 && pos.slice < SYNC_POINTS
    ensures StartPosition(g, pos) == if pos.slice < 3 then (pos.slice + 1) * g.segmentLength else 0
  {
    SliceStart(g, pos.slice);
    if pos.slice < 3 {
      ModUnique((pos.slice + 1) * g.segmentLength, g.LaneLength(), 0, (pos.slice + 1) * g.segmentLength);
    } else {
      ModUnique((pos.slice + 1) * g.segmentLength, g.LaneLength(), 1, 0);
    }
  }

  lemma LaterPassArea(g: Geometry, pos: Position, index: nat, sameLane: bool, rel: nat, start: nat)
    requires ValidGeometry(g) && Reachable(g, pos, index, sameLane) && pos.pass > 0
    requires rel < RefAreaSize(g, pos, index, sameLane)
    requires pos.slice * g.segmentLength == if pos.slice == 0 then 0 else if pos.slice == 1 then g.segmentLength
                                            else if pos.slice == 2 then 2 * g.segmentLength else 3 * g.segmentLength
    requires start == if pos.slice < 3 then (pos.slice + 1) * g.segmentLength else 0
    ensures InReferenceArea(g, pos, index, sameLane, (start + rel) % g.LaneLength())
  {
    var l := g.LaneLength();
    if start + rel < l {
      ModUnique(start + rel, l, 0, start + rel);
    } else {
      ModUnique(start + rel, l, 1, start + rel - l);
    }
  }

  /** Java's `a % b` on ints for b > 0: the remainder takes the sign of a. */
  function IntRem(a: int32, b: int): int
    requires b > 0
  {
    if a >= 0 then a % b else -((-(a as int)) % b)
  }

  /** getRefColumn as written: `(int)(startPosition + relativePosition) % laneLength` casts the
      long sum to int before the remainder, so a sum of 2^31 or more wraps negative. */
  function RefColumnAsWritten(g: Geometry, pos: Position, index: nat, pseudoRandom: bv64, sameLane: bool): (col: int)
    requires ValidGeometry(g) && Reachable(g, pos, index, sameLane)
    ensures -(g.LaneLength() as int) < col < g.LaneLength()
  {
    AreaSizeBounds(g, pos, index, sameLane);
    var rel := RelativePosition(RefAreaSize(g, pos, index, sameLane), pseudoRandom);
    IntRem(Wrap32(StartPosition(g, pos) + rel), g.LaneLength())
  }

  /** The two agree whenever a lane has at most 2^30 blocks (1 TiB of memory per lane). */
  lemma RefColumnAgrees(g: Geometry, pos: Position, index: nat, pseudoRandom: bv64, sameLane: bool)
    requires ValidGeometry(g) && Reachable(g, pos, index, sameLane)
    requires g.LaneLength() <= 0x4000_0000
    ensures RefColumnAsWritten(g, pos, index, pseudoRandom, sameLane) == RefColumn(g, pos, index, pseudoRandom, sameLane)
  {
    AreaSizeBounds(g, pos, index, sameLane);
  }

  /** With 2^31 - 1 KiB of memory in one lane, the reference of the first block of slice 2 in
      the second pass, for a pseudo-random value of 0, sums to 3221225464: the cast makes it
      -1073741832, a negative index into memory, where the intended column is 1073741820. */
  lemma RefColumnWrapsNegative()
    ensures var p := Params(ARGON2_I, None, None, None, 1, INT_MAX, 1, VERSION_13);
            InitCheck(p).Pass? && DoInit(p) == Geometry(1, 536870911)
    ensures var g := Geometry(1, 536870911);
            var pos := Position(1, 0, 2);
            ValidGeometry(g) && RefLane(1, pos, 0) == 0 && Reachable(g, pos, 0, true)
            && RefColumnAsWritten(g, pos, 0, 0, true) == -1073741832
            && RefColumn(g, pos, 0, 0, true) == 1073741820
  {
    var g := Geometry(1, 536870911);
    var pos := Position(1, 0, 2);
    assert RefAreaSize(g, pos, 0, true) == 1610612732;
    assert RelativePosition(1610612732, 0) == 1610612731;
    assert StartPosition(g, pos) == 1610612733;
  }

  // Address blocks

  /** The input block Z and the address block of data-independent addressing. */
  datatype Addressing = Addressing(input: Block, address: Block)

  /** intToLong(x) = `x & 0xFFFFFFFFL`: the int read unsigned. */
  function IntToLong(x: int32): bv64 {
    Unsigned(x) as bv64
  }

  /** The input block of a segment as initAddressBlocks sets it: pass, lane, slice, block
      count, pass count and type in words 0-5; the counter (word 6) and the rest 0. */
  function InputBlock(g: Geometry, p: Params, pos: Position): Block
    requires pos.pass <= INT_MAX && pos.lane <= INT_MAX && pos.slice <= INT_MAX && g.Blocks() <= INT_MAX
  {
    ZeroBlock()[0 := IntToLong(pos.pass)][1 := IntToLong(pos.lane)][2 := IntToLong(pos.slice)]
               [3 := IntToLong(g.Blocks())][4 := IntToLong(p.iterations)][5 := IntToLong(p.argonType)]
  }

  /** nextAddresses: the counter word is incremented (modulo 2^64) and the address block
      becomes G(0, G(0, Z)) of RFC 9106 section 3.4.1.2. */
  function NextAddresses(perm: Compression, a: Addressing): (r: Addressing)
    ensures r.input[6] == a.input[6] + 1
    ensures forall k :: 0 <= k < QWORDS && k != 6 ==> r.input[k] == a.input[k]
    ensures r.address == FillBlock(perm, ZeroBlock(), FillBlock(perm, ZeroBlock(), r.input))
  {
    var input := a.input[6 := a.input[6] + 1];
    var first := FillBlockFrom(perm, input);
    FillBlockFromIsZeroFill(perm, input);
    FillBlockFromIsZeroFill(perm, first);
    Addressing(input, FillBlockFrom(perm, first))
  }

  /** The addressing state after n address blocks have been generated. */
  function AddressesAfter(perm: Compression, a: Addressing, n: nat): Addressing
    decreases n
  {
    if n == 0 then a else NextAddresses(perm, AddressesAfter(perm, a, n - 1))
  }

  /** The header words 0-5 of the input block never change while addresses are generated. */
  lemma {:induction false} HeaderKept(perm: Compression, a: Addressing, n: nat, k: nat)
    requires k < 6
    ensures AddressesAfter(perm, a, n).input[k] == a.input[k]
    decreases n
  {
    if n > 0 {
      HeaderKept(perm, a, n - 1, k);
    }
  }

  /** initAddressBlocks: in the first slice of the first pass the first address block is made
      at once, because filling starts at index 2 there. */
  function InitAddressBlocks(perm: Compression, a: Addressing, pos: Position): (r: Addressing)
    ensures r == AddressesAfter(perm, a, AddressBlocksBefore(StartingIndex(pos)))
  {
    if pos.pass == 0 && pos.slice == 0 then NextAddresses(perm, a) else a
  }

  // Filling

  /** The memory index of column `index` of the segment at `pos`. */
  function Offset(g: Geometry, pos: Position, index: nat): nat {
    pos.lane * g.LaneLength() + pos.slice * g.segmentLength + index
  }

  /** What fillSegment relies on: a lane and slice inside the geometry, a pass below the pass
      count, and memory of the aligned size. */
  predicate SegmentOk(g: Geometry, p: Params, pos: Position, memory: seq<Block>) {
    ValidGeometry(g) && pos.lane < g.lanes && pos.slice < SYNC_POINTS && pos.pass < p.iterations
    && |memory| == g.Blocks()
  }

  /** Where an offset inside the segment lies in its lane. */
  lemma OffsetFacts(g: Geometry, pos: Position, index: nat)
    requires ValidGeometry(g) && pos.lane < g.lanes && pos.slice < SYNC_POINTS && index < g.segmentLength
    ensures Offset(g, pos, index) < g.Blocks()
    ensures Offset(g, pos, index) % g.LaneLength() == pos.slice * g.segmentLength + index
    ensures PrevOffset(g, Offset(g, pos, index)) < g.Blocks()
    ensures index + 1 < g.segmentLength ==> PrevOffset(g, Offset(g, pos, index + 1)) == Offset(g, pos, index)
  {
    var l := g.LaneLength();
    SliceStart(g, pos.slice);
    BlocksByLanes(g);
    LaneSlot(g, pos.lane, pos.slice * g.segmentLength + index);
    ModUnique(Offset(g, pos, index), l, pos.lane, pos.slice * g.segmentLength + index);
    if index + 1 < g.segmentLength {
      ModUnique(Offset(g, pos, index + 1), l, pos.lane, pos.slice * g.segmentLength + index + 1);
    }
    if pos.slice * g.segmentLength + index == 0 {
      LaneSlot(g, pos.lane, l - 1);
    }
  }

  /** Column col of lane `lane` is inside the memory. */
  lemma LaneSlot(g: Geometry, lane: nat, col: nat)
    requires lane < g.lanes && col < g.LaneLength()
    ensures g.LaneLength() * lane + col < g.Blocks() && lane * g.LaneLength() + col < g.Blocks()
    ensures 0 <= g.LaneLength() * lane
  {
    BlocksByLanes(g);
    MulMonotone(g.LaneLength(), lane + 1, g.lanes);
  }

  /** The loop of fillSegment from `index` on. Column `index` gets G(prev, ref), xor-ed into
      the old block after the first pass with version 0x13; prev becomes the block just made.
      With data-independent addressing, the pseudo-random value for index i is word i mod 128
      of the (i / 128 + 1)-th address block of the segment (see AddressBlockOf); otherwise it
      is the first word of the previous block. */
  function FillSegmentFrom(perm: Compression, g: Geometry, p: Params, pos: Position, a0: Addressing,
                           index: nat, prev: nat, memory: seq<Block>): (m: seq<Block>)
    requires SegmentOk(g, p, pos, memory) && StartingIndex(pos) <= index <= g.segmentLength
    requires index < g.segmentLength ==> prev == PrevOffset(g, Offset(g, pos, index)) && prev < |memory|
    ensures |m| == |memory|
    ensures forall k :: 0 <= k < |memory| && !(Offset(g, pos, index) <= k < Offset(g, pos, g.segmentLength)) ==>
                        m[k] == memory[k]
    decreases g.segmentLength - index
  {
    if index == g.segmentLength then memory
    else
      var memory' := FillStep(perm, g, p, pos, a0, index, prev, memory);
      FillSegmentFrom(perm, g, p, pos, a0, index + 1, Offset(g, pos, index), memory')
  }
  /** One turn of fillSegment's loop: the block at the current offset is computed and stored. */
  function FillStep(perm: Compression, g: Geometry, p: Params, pos: Position, a0: Addressing,
                    index: nat, prev: nat, memory: seq<Block>): (m: seq<Block>)
    requires SegmentOk(g, p, pos, memory) && StartingIndex(pos) <= index < g.segmentLength
    requires prev == PrevOffset(g, Offset(g, pos, index)) && prev < |memory|
    ensures |m| == |memory| && Offset(g, pos, index) < |memory|
    ensures forall k :: 0 <= k < |memory| && k != Offset(g, pos, index) ==> m[k] == memory[k]
    ensures index + 1 < g.segmentLength ==> Offset(g, pos, index) == PrevOffset(g, Offset(g, pos, index + 1))
  {
    var cur := Offset(g, pos, index);
    OffsetFacts(g, pos, index);
    var pseudoRandom := PseudoRandom(perm, p, pos, a0, index, prev, memory);
    memory[cur := NewBlock(perm, g, p, pos, index, prev, memory, pseudoRandom)]
  }

  /** The address block in use at column i of a data-independent segment. initAddressBlocks
      makes the first one before the loop when the segment starts at column 2, and the loop
      makes the next one at every column that is a multiple of 128; either way column i uses
      the (i / 128 + 1)-th. */
  function AddressBlockOf(perm: Compression, a0: Addressing, pos: Position, i: nat): (a: Addressing)
    requires StartingIndex(pos) <= i
    ensures i % 128 == 0 ==> a == NextAddresses(perm, AddressesAfter(perm, a0, AddressBlocksBefore(i)))
    ensures i % 128 != 0 ==> a == AddressesAfter(perm, a0, AddressBlocksBefore(i))
    ensures i == StartingIndex(pos) && i % 128 != 0 ==> a == InitAddressBlocks(perm, a0, pos)
  {
    CeilStep(i);
    AddressesAfter(perm, a0, i / 128 + 1)
  }

  /** How many address blocks (of ADDRESSES_IN_BLOCK words each) are made before column i of a
      data-independent segment: i / 128 rounded up. */
  function AddressBlocksBefore(i: nat): nat {
    (i + 127) / 128
  }

  /** Column i takes a new address block exactly when i is a multiple of 128. */
  lemma CeilStep(i: nat)
    ensures i % 128 == 0 ==> AddressBlocksBefore(i) == i / 128
    ensures i % 128 != 0 ==> AddressBlocksBefore(i) == i / 128 + 1
  {
    ModUnique(i, 128, i / 128, i % 128);
    if i % 128 == 0 {
      ModUnique(i + 127, 128, i / 128, 127);
    } else {
      ModUnique(i + 127, 128, i / 128 + 1, i % 128 - 1);
    }
  }

  /** getPseudoRandom: a word of the address block, or the first word of the previous block. */
  function PseudoRandom(perm: Compression, p: Params, pos: Position, a0: Addressing, index: nat, prev: nat,
                        memory: seq<Block>): bv64
    requires StartingIndex(pos) <= index && prev < |memory|
  {
    if IsDataIndependentAddressing(p.argonType, pos) then AddressBlockOf(perm, a0, pos, index).address[index % 128]
    else memory[prev][0]
  }

  /** `laneLength * refLane + refColumn`: the memory index of the reference block. */
  function RefIndex(g: Geometry, pos: Position, index: nat, pseudoRandom: bv64): (k: nat)
    requires ValidGeometry(g) && pos.lane < g.lanes && pos.slice < SYNC_POINTS
    requires StartingIndex(pos) <= index < g.segmentLength
    ensures k < g.Blocks()
  {
    var refLane := LaneOf(g.lanes, pos, pseudoRandom);
    var refColumn := ColumnOf(g, pos, index, pseudoRandom, refLane == pos.lane);
    LaneSlot(g, refLane, refColumn);
    g.LaneLength() * refLane + refColumn
  }

  /** RefLane with only the bound of its result in view. */
  function LaneOf(lanes: nat, pos: Position, pseudoRandom: bv64): (r: nat)
    requires lanes >= 1 && pos.lane < lanes
    ensures r < lanes
  {
    RefLane(lanes, pos, pseudoRandom)
  }

  /** RefColumn with only the bound of its result in view. */
  function ColumnOf(g: Geometry, pos: Position, index: nat, pseudoRandom: bv64, sameLane: bool): (col: nat)
    requires ValidGeometry(g) && Reachable(g, pos, index, sameLane)
    ensures col < g.LaneLength()
  {
    RefColumn(g, pos, index, pseudoRandom, sameLane)
  }

  /** The block fillSegment makes for column `index`: G(prev, ref) of RFC 9106 section 3.4,
      xor-ed into the old block after the first pass unless the version is 0x10. */
  function NewBlock(perm: Compression, g: Geometry, p: Params, pos: Position, index: nat, prev: nat,
                    memory: seq<Block>, pseudoRandom: bv64): (b: Block)
    requires SegmentOk(g, p, pos, memory) && StartingIndex(pos) <= index < g.segmentLength && prev < |memory|
    requires Offset(g, pos, index) < |memory|
  {
    var ref := memory[RefIndex(g, pos, index, pseudoRandom)];
    if IsWithXor(p.version, pos) then FillBlockWithXor(perm, memory[prev], ref, memory[Offset(g, pos, index)])
    else FillBlock(perm, memory[prev], ref)
  }

  /** fillSegment: the blocks of one segment, from its starting index on; nothing outside the
      segment changes, and in the first slice of the first pass neither do its first two
      blocks. */
  function FillSegment(perm: Compression, g: Geometry, p: Params, pos: Position, memory: seq<Block>): (m: seq<Block>)
    requires SegmentOk(g, p, pos, memory)
    ensures |m| == |memory|
    ensures forall k :: 0 <= k < |memory| && !(Offset(g, pos, StartingIndex(pos)) <= k < Offset(g, pos, g.segmentLength)) ==>
                        m[k] == memory[k]
  {
    var start := StartingIndex(pos);
    var a0 := Addressing(InputBlock(g, p, pos), ZeroBlock());
    if start == g.segmentLength then memory
    else
      OffsetFacts(g, pos, start);
      FillSegmentFrom(perm, g, p, pos, a0, start, PrevOffset(g, Offset(g, pos, start)), memory)
  }

  /** The lanes of one slice, in order (the source fills them one after another). */
  function FillLanes(perm: Compression, g: Geometry, p: Params, pass: nat, slice: nat, lane: nat, memory: seq<Block>): (m: seq<Block>)
    requires ValidGeometry(g) && slice < SYNC_POINTS && pass < p.iterations && lane <= g.lanes
    requires |memory| == g.Blocks()
    ensures |m| == |memory|
    decreases g.lanes - lane
  {
    if lane == g.lanes then memory
    else FillLanes(perm, g, p, pass, slice, lane + 1, FillSegment(perm, g, p, Position(pass, lane, slice), memory))
  }

  function FillSlices(perm: Compression, g: Geometry, p: Params, pass: nat, slice: nat, memory: seq<Block>): (m: seq<Block>)
    requires ValidGeometry(g) && slice <= SYNC_POINTS && pass < p.iterations && |memory| == g.Blocks()
    ensures |m| == |memory|
    decreases SYNC_POINTS - slice
  {
    if slice == SYNC_POINTS then memory
    else FillSlices(perm, g, p, pass, slice + 1, FillLanes(perm, g, p, pass, slice, 0, memory))
  }

  function FillPasses(perm: Compression, g: Geometry, p: Params, pass: nat, memory: seq<Block>): (m: seq<Block>)
    requires ValidGeometry(g) && pass <= p.iterations && |memory| == g.Blocks()
    ensures |m| == |memory|
    decreases p.iterations - pass
  {
    if pass == p.iterations then memory
    else FillPasses(perm, g, p, pass + 1, FillSlices(perm, g, p, pass, 0, memory))
  }

  /** fillMemoryBlocks: every pass, slice by slice, lane by lane. */
  function FillMemoryBlocks(perm: Compression, gen: Generator): (m: seq<Block>)
    requires GeneratorOk(gen)
    ensures |m| == |gen.memory|
  {
    FillPasses(perm, gen.geometry, gen.params, 0, gen.memory)
  }
}
