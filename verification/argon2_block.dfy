/** The 1 KiB block of Argon2BytesGenerator and its compression: 128 64-bit words, the
    BlaMka quarter round, the Blake2b-style round function over 16 of the words, and the
    fill operations built on them. The generator keeps a block's words in a CLongArray; here
    they are a sequence of bv64. */
module Argon2Block {
  import opened Errors
  import opened CUtils

  const QWORDS: nat := 128
  const BLOCK_BYTES: nat := 1024
  const M32: bv64 := 0xFFFF_FFFF

  type Block = s: seq<bv64> | |s| == QWORDS witness seq(QWORDS, _ => 0)

  /** `new Block()`, and the block after clear(). */
  function ZeroBlock(): (z: Block)
    ensures forall i :: 0 <= i < QWORDS ==> z[i] == 0
  {
    seq(QWORDS, _ => 0)
  }

  /** xor(b1, b2): word by word. */
  function Xor(a: Block, b: Block): (r: Block)
    ensures forall i :: 0 <= i < QWORDS ==> r[i] == a[i] ^ b[i]
  {
    seq(QWORDS, i requires 0 <= i < QWORDS => a[i] ^ b[i])
  }

  // The quarter round

  /** fBlaMka: a + b + 2 * lo32(a) * lo32(b), all modulo 2^64. */
  function BlaMka(a: bv64, b: bv64): bv64 {
    a + b + 2 * (a & M32) * (b & M32)
  }

  /** Long.rotateRight(x, s). */
  function RotR(x: bv64, s: nat): bv64 {
    if s < 64 then x.RotateRight(s) else x
  }

  /** The xor of two words, named so that proofs see it as one term. */
  function XorWord(x: bv64, y: bv64): bv64 {
    x ^ y
  }

  /** The two word operations a quarter round is made of: the mixing addition and the
      rotation. The shape of the round function is stated for any such pair; the generator's
      are BLAMKA and ROTR. */
  type Mixer = (bv64, bv64) -> bv64
  type Rotation = (bv64, nat) -> bv64

  const BLAMKA: Mixer := (a, b) => BlaMka(a, b)
  const ROTR: Rotation := (x: bv64, s: nat) => RotR(x, s)

  /** quarterRound(v, x, y, z, s): word x becomes mix(v[x], v[y]), then word z becomes
      v[z] ^ (new v[x]) rotated right by s. */
  function QuarterRoundBy(mix: Mixer, rot: Rotation, v: seq<bv64>, x: nat, y: nat, z: nat, s: nat): (r: seq<bv64>)
    requires x < |v| && y < |v| && z < |v|
    ensures |r| == |v|
  {
    var a := mix(v[x], v[y]);
    var c := rot(XorWord(v[z], a), s);
    v[x := a][z := c]
  }

  /** The generator's quarterRound. */
  function QuarterRound(v: seq<bv64>, x: nat, y: nat, z: nat, s: nat): (r: seq<bv64>)
    requires x < |v| && y < |v| && z < |v| && x != z
    ensures |r| == |v|
    ensures r[x] == BlaMka(v[x], v[y]) && r[z] == RotR(XorWord(v[z], r[x]), s)
    ensures forall k :: 0 <= k < |v| && k != x && k != z ==> r[k] == v[k]
  {
    QuarterRoundBy(BLAMKA, ROTR, v, x, y, z, s)
  }

  /** F(v, a, b, c, d): the four quarter rounds with rotations 32, 24, 16, 63. */
  function FBy(mix: Mixer, rot: Rotation, v: seq<bv64>, a: nat, b: nat, c: nat, d: nat): (r: seq<bv64>)
    requires a < |v| && b < |v| && c < |v| && d < |v|
    ensures |r| == |v|
  {
    var v1 := QuarterRoundBy(mix, rot, v, a, b, d, 32);
    var v2 := QuarterRoundBy(mix, rot, v1, c, d, b, 24);
    var v3 := QuarterRoundBy(mix, rot, v2, a, b, d, 16);
    QuarterRoundBy(mix, rot, v3, c, d, b, 63)
  }

  /** The function GB of RFC 9106 section 3.6 on four words, for a mixer and a rotation. */
  function GBBy(mix: Mixer, rot: Rotation, a: bv64, b: bv64, c: bv64, d: bv64): (bv64, bv64, bv64, bv64) {
    var a1 := mix(a, b);
    var d1 := rot(XorWord(d, a1), 32);
    var c1 := mix(c, d1);
    var b1 := rot(XorWord(b, c1), 24);
    var a2 := mix(a1, b1);
    var d2 := rot(XorWord(d1, a2), 16);
    var c2 := mix(c1, d2);
    var b2 := rot(XorWord(b1, c2), 63);
    (a2, b2, c2, d2)
  }

  /** GB of RFC 9106 section 3.6 with the generator's operations: the mixing addition is
      a + b + 2 * trunc(a) * trunc(b) and the rotation is rotr64. */
  function GB(a: bv64, b: bv64, c: bv64, d: bv64): (bv64, bv64, bv64, bv64) {
    GBBy(BLAMKA, ROTR, a, b, c, d)
  }

  /** F on four distinct positions of the array is GB on the four words there; nothing else
      changes. */
  lemma FByIsGB(mix: Mixer, rot: Rotation, v: seq<bv64>, a: nat, b: nat, c: nat, d: nat)
    requires a < |v| && b < |v| && c < |v| && d < |v|
    requires a != b && a != c && a != d && b != c && b != d && c != d
    ensures var g := GBBy(mix, rot, v[a], v[b], v[c], v[d]);
            FBy(mix, rot, v, a, b, c, d) == v[a := g.0][b := g.1][c := g.2][d := g.3]
  {
    var a1 := mix(v[a], v[b]);
    var d1 := rot(XorWord(v[d], a1), 32);
    var w1 := v[a := a1][d := d1];
    QuarterRoundStep(mix, rot, v, a, b, d, 32);
    var c1 := mix(v[c], d1);
    var b1 := rot(XorWord(v[b], c1), 24);
    var w2 := w1[c := c1][b := b1];
    QuarterRoundStep(mix, rot, w1, c, d, b, 24);
    var a2 := mix(a1, b1);
    var d2 := rot(XorWord(d1, a2), 16);
    var w3 := w2[a := a2][d := d2];
    QuarterRoundStep(mix, rot, w2, a, b, d, 16);
    var c2 := mix(c1, d2);
    var b2 := rot(XorWord(b1, c2), 63);
    QuarterRoundStep(mix, rot, w3, c, d, b, 63);
    assert FBy(mix, rot, v, a, b, c, d) == w3[c := c2][b := b2];
    assert GBBy(mix, rot, v[a], v[b], v[c], v[d]) == (a2, b2, c2, d2);
    Collapse(v, a, b, c, d, a1, b1, c1, d1, a2, b2, c2, d2);
    Reorder(v, a, b, c, d, a2, b2, c2, d2);
  }

  /** Four later updates of the same positions hide four earlier ones. */
  lemma Collapse<T>(v: seq<T>, a: nat, b: nat, c: nat, d: nat, a1: T, b1: T, c1: T, d1: T,
                    a2: T, b2: T, c2: T, d2: T)
    requires a < |v| && b < |v| && c < |v| && d < |v|
    ensures v[a := a1][d := d1][c := c1][b := b1][a := a2][d := d2][c := c2][b := b2]
            == v[a := a2][d := d2][c := c2][b := b2]
  {
  }

  /** Updates of distinct positions commute. */
  lemma Reorder<T>(v: seq<T>, a: nat, b: nat, c: nat, d: nat, x: T, y: T, z: T, w: T)
    requires a < |v| && b < |v| && c < |v| && d < |v|
    requires a != b && a != c && a != d && b != c && b != d && c != d
    ensures v[a := x][d := w][c := z][b := y] == v[a := x][b := y][c := z][d := w]
  {
  }

  /** One quarter round on distinct positions, as two updates of the array. */
  lemma QuarterRoundStep(mix: Mixer, rot: Rotation, v: seq<bv64>, x: nat, y: nat, z: nat, s: nat)
    requires x < |v| && y < |v| && z < |v| && x != y && x != z && y != z
    ensures QuarterRoundBy(mix, rot, v, x, y, z, s)
            == v[x := mix(v[x], v[y])][z := rot(XorWord(v[z], mix(v[x], v[y])), s)]
  {
  }

  // The round function

  /** Four of the sixteen places a round works on. */
  datatype Quad = Quad(a: nat, b: nat, c: nat, d: nat)

  predicate QuadOk(q: Quad) {
    q.a < 16 && q.b < 16 && q.c < 16 && q.d < 16
    && q.a != q.b && q.a != q.c && q.a != q.d && q.b != q.c && q.b != q.d && q.c != q.d
  }

  predicate QuadsOk(qs: seq<Quad>) {
    forall k :: 0 <= k < |qs| ==> QuadOk(qs[k])
  }

  /** The order of roundFunction's eight calls of F, which is the order of the eight GB of P
      in RFC 9106 section 3.6: the four columns (v0, v4, v8, v12) ... (v3, v7, v11, v15) of the
      4x4 matrix, then the four diagonals (v0, v5, v10, v15) ... (v3, v4, v9, v14). */
  const ROUND_ORDER: seq<Quad> := [
    Quad(0, 4, 8, 12), Quad(1, 5, 9, 13), Quad(2, 6, 10, 14), Quad(3, 7, 11, 15),
    Quad(0, 5, 10, 15), Quad(1, 6, 11, 12), Quad(2, 7, 8, 13), Quad(3, 4, 9, 14)]

  lemma RoundOrderOk()
    ensures |ROUND_ORDER| == 8 && QuadsOk(ROUND_ORDER)
  {
  }

  /** The sixteen positions a round is given: in range and distinct. */
  predicate Spots(v: seq<bv64>, i: seq<nat>) {
    |i| == 16 && (forall k :: 0 <= k < 16 ==> i[k] < |v|) && Distinct(i)
  }

  predicate Distinct(i: seq<nat>) {
    forall j, k :: 0 <= j < k < |i| ==> i[j] != i[k]
  }

  /** F on the array at positions i[q.a], i[q.b], i[q.c], i[q.d], for each q in turn. */
  function FSteps(mix: Mixer, rot: Rotation, v: seq<bv64>, i: seq<nat>, qs: seq<Quad>): (r: seq<bv64>)
    requires Spots(v, i) && QuadsOk(qs)
    ensures |r| == |v|
    decreases |qs|
  {
    if qs == [] then v
    else
      var q := qs[0];
      FSteps(mix, rot, FBy(mix, rot, v, i[q.a], i[q.b], i[q.c], i[q.d]), i, qs[1..])
  }

  /** roundFunction(block, v0, ..., v15): F on the sixteen positions i in ROUND_ORDER. */
  function RoundFunctionBy(mix: Mixer, rot: Rotation, v: seq<bv64>, i: seq<nat>): (r: seq<bv64>)
    requires Spots(v, i)
    ensures |r| == |v|
  {
    FSteps(mix, rot, v, i, ROUND_ORDER)
  }

  /** GB applied in place to positions a, b, c, d of the words w. */
  function GBAt(mix: Mixer, rot: Rotation, w: seq<bv64>, q: Quad): (r: seq<bv64>)
    requires q.a < |w| && q.b < |w| && q.c < |w| && q.d < |w|
    ensures |r| == |w|
  {
    var g := GBBy(mix, rot, w[q.a], w[q.b], w[q.c], w[q.d]);
    w[q.a := g.0][q.b := g.1][q.c := g.2][q.d := g.3]
  }

  /** GB on the sixteen words w at each q in turn. */
  function GBSteps(mix: Mixer, rot: Rotation, w: seq<bv64>, qs: seq<Quad>): (r: seq<bv64>)
    requires |w| == 16 && QuadsOk(qs)
    ensures |r| == 16
    decreases |qs|
  {
    if qs == [] then w else GBSteps(mix, rot, GBAt(mix, rot, w, qs[0]), qs[1..])
  }

  /** The permutation P of RFC 9106 section 3.6 on the sixteen words of a 4x4 matrix. */
  function P(mix: Mixer, rot: Rotation, w: seq<bv64>): (r: seq<bv64>)
    requires |w| == 16
    ensures |r| == 16
  {
    GBSteps(mix, rot, w, ROUND_ORDER)
  }

  /** The words at positions i, in order. */
  function Gather<T>(v: seq<T>, i: seq<nat>): (w: seq<T>)
    requires forall k :: 0 <= k < |i| ==> i[k] < |v|
    ensures |w| == |i| && forall k :: 0 <= k < |i| ==> w[k] == v[i[k]]
  {
    seq(|i|, k requires 0 <= k < |i| => v[i[k]])
  }

  /** F at four of the gathered positions is GB on the gathered words. */
  lemma GatherF(mix: Mixer, rot: Rotation, v: seq<bv64>, i: seq<nat>, q: Quad)
    requires Spots(v, i) && QuadOk(q)
    ensures Gather(FBy(mix, rot, v, i[q.a], i[q.b], i[q.c], i[q.d]), i) == GBAt(mix, rot, Gather(v, i), q)
  {
    FByIsGB(mix, rot, v, i[q.a], i[q.b], i[q.c], i[q.d]);
    var g := GBBy(mix, rot, v[i[q.a]], v[i[q.b]], v[i[q.c]], v[i[q.d]]);
    var v1 := v[i[q.a] := g.0];
    var v2 := v1[i[q.b] := g.1];
    var v3 := v2[i[q.c] := g.2];
    GatherUpdate(v, i, q.a, g.0);
    GatherUpdate(v1, i, q.b, g.1);
    GatherUpdate(v2, i, q.c, g.2);
    GatherUpdate(v3, i, q.d, g.3);
  }

  /** Updating a gathered position updates the gathered words. */
  lemma GatherUpdate<T>(v: seq<T>, i: seq<nat>, p: nat, x: T)
    requires (forall k :: 0 <= k < |i| ==> i[k] < |v|) && Distinct(i) && p < |i|
    ensures Gather(v[i[p] := x], i) == Gather(v, i)[p := x]
  {
  }

  /** F in place, step by step, is GB on the gathered words, step by step. */
  lemma {:induction false} FStepsGather(mix: Mixer, rot: Rotation, v: seq<bv64>, i: seq<nat>, qs: seq<Quad>)
    requires Spots(v, i) && QuadsOk(qs)
    ensures Gather(FSteps(mix, rot, v, i, qs), i) == GBSteps(mix, rot, Gather(v, i), qs)
    decreases |qs|
  {
    if qs != [] {
      var q := qs[0];
      GatherF(mix, rot, v, i, q);
      FStepsGather(mix, rot, FBy(mix, rot, v, i[q.a], i[q.b], i[q.c], i[q.d]), i, qs[1..]);
    }
  }

  /** On sixteen distinct positions, roundFunction is P of RFC 9106 on the words there. */
  lemma RoundFunctionIsP(mix: Mixer, rot: Rotation, v: seq<bv64>, i: seq<nat>)
    requires Spots(v, i)
    ensures Gather(RoundFunctionBy(mix, rot, v, i), i) == P(mix, rot, Gather(v, i))
  {
    RoundOrderOk();
    FStepsGather(mix, rot, v, i, ROUND_ORDER);
  }

  /** The frame of F: positions other than the four it works on keep their words. */
  lemma FByFrame(mix: Mixer, rot: Rotation, v: seq<bv64>, a: nat, b: nat, c: nat, d: nat, x: nat)
    requires a < |v| && b < |v| && c < |v| && d < |v| && x < |v|
    requires a != b && a != c && a != d && b != c && b != d && c != d
    requires x != a && x != b && x != c && x != d
    ensures FBy(mix, rot, v, a, b, c, d)[x] == v[x]
  {
    FByIsGB(mix, rot, v, a, b, c, d);
  }

  /** The frame of F, step by step: a position outside i keeps its word. */
  lemma {:induction false} FStepsFrame(mix: Mixer, rot: Rotation, v: seq<bv64>, i: seq<nat>, qs: seq<Quad>, x: nat)
    requires Spots(v, i) && QuadsOk(qs)
    requires x < |v| && forall k :: 0 <= k < 16 ==> i[k] != x
    ensures FSteps(mix, rot, v, i, qs)[x] == v[x]
    decreases |qs|
  {
    if qs != [] {
      var q := qs[0];
      FByFrame(mix, rot, v, i[q.a], i[q.b], i[q.c], i[q.d], x);
      FStepsFrame(mix, rot, FBy(mix, rot, v, i[q.a], i[q.b], i[q.c], i[q.d]), i, qs[1..], x);
    }
  }

  /** The frame of roundFunction: a position outside the sixteen keeps its word. */
  lemma RoundFunctionFrame(mix: Mixer, rot: Rotation, v: seq<bv64>, i: seq<nat>, x: nat)
    requires Spots(v, i)
    requires x < |v| && forall k :: 0 <= k < 16 ==> i[k] != x
    ensures RoundFunctionBy(mix, rot, v, i)[x] == v[x]
  {
    RoundOrderOk();
    FStepsFrame(mix, rot, v, i, ROUND_ORDER, x);
  }

  // applyBlake

  /** The two passes of applyBlake: over the eight runs of sixteen consecutive words, and
      over the eight groups of word pairs (2i, 2i + 1, 2i + 16, 2i + 17, ..., 2i + 112, 2i + 113).
      Seen as an 8x8 matrix of 16-byte registers these are its rows and its columns. */
  datatype Layout = Rows | Columns

  /** The step of a pass in which position x is worked on, and its place among the sixteen. */
  function GroupOf(l: Layout, x: nat): nat {
    match l
    case Rows => x / 16
    case Columns => (x % 16) / 2
  }

  function PlaceOf(l: Layout, x: nat): nat {
    match l
    case Rows => x % 16
    case Columns => 2 * (x / 16) + x % 2
  }

  /** The k-th of the sixteen positions that roundFunction gets in step j of a pass: a word of
      the block whose group is j and whose place is k. */
  function Position(l: Layout, j: nat, k: nat): (x: nat)
    requires j < 8 && k < 16
    ensures x < QWORDS && GroupOf(l, x) == j && PlaceOf(l, x) == k
  {
    match l
    case Rows => 16 * j + k
    case Columns =>
      var y := 2 * j + 16 * (k / 2) + k % 2;
      assert y % 16 == 2 * j + k % 2 && y / 16 == k / 2;
      y
  }

  /** Each pass visits every word of the block exactly once: every word is among the positions
      for its group, at its place. */
  lemma GroupCovers(l: Layout, x: nat)
    requires x < QWORDS
    ensures GroupOf(l, x) < 8 && PlaceOf(l, x) < 16
    ensures Position(l, GroupOf(l, x), PlaceOf(l, x)) == x
  {
    match l
    case Rows =>
    case Columns =>
      var g, p := (x % 16) / 2, 2 * (x / 16) + x % 2;
      assert p / 2 == x / 16 && p % 2 == x % 2;
      assert 2 * g + x % 2 == x % 16;
  }

  /** The sixteen positions of step j. */
  function Positions(l: Layout, j: nat): (i: seq<nat>)
    requires j < 8
    ensures |i| == 16 && (forall k :: 0 <= k < 16 ==> i[k] < QWORDS) && Distinct(i)
    ensures forall k :: 0 <= k < 16 ==> GroupOf(l, i[k]) == j
  {
    seq(16, k requires 0 <= k < 16 => Position(l, j, k))
  }

  /** A round as a pass of applyBlake uses it: the block and the sixteen positions in, the
      new block out. */
  type Round = (seq<bv64>, seq<nat>) -> seq<bv64>
  type Permutation = seq<bv64> -> seq<bv64>

  /** round works on the words at positions i as perm does on sixteen words, and keeps every
      other word. */
  ghost predicate ActsAs(round: Round, perm: Permutation) {
    forall v: seq<bv64>, i: seq<nat> | Spots(v, i) ::
      |round(v, i)| == |v| && Gather(round(v, i), i) == perm(Gather(v, i))
      && forall x :: 0 <= x < |v| && (forall k :: 0 <= k < 16 ==> i[k] != x) ==> round(v, i)[x] == v[x]
  }

  /** The generator's roundFunction as a Round, and P as a Permutation. */
  function RoundOf(mix: Mixer, rot: Rotation): Round {
    (v: seq<bv64>, i: seq<nat>) => if Spots(v, i) then RoundFunctionBy(mix, rot, v, i) else v
  }

  function PermOf(mix: Mixer, rot: Rotation): Permutation {
    (w: seq<bv64>) => if |w| == 16 then P(mix, rot, w) else w
  }

  lemma RoundActsAsP(mix: Mixer, rot: Rotation)
    ensures ActsAs(RoundOf(mix, rot), PermOf(mix, rot))
  {
    forall v: seq<bv64>, i: seq<nat> | Spots(v, i)
      ensures Gather(RoundOf(mix, rot)(v, i), i) == PermOf(mix, rot)(Gather(v, i))
      ensures forall x :: 0 <= x < |v| && (forall k :: 0 <= k < 16 ==> i[k] != x)
                          ==> RoundOf(mix, rot)(v, i)[x] == v[x]
    {
      RoundFunctionIsP(mix, rot, v, i);
      forall x | 0 <= x < |v| && (forall k :: 0 <= k < 16 ==> i[k] != x) {
        RoundFunctionFrame(mix, rot, v, i, x);
      }
    }
  }

  /** The first n steps of one pass of applyBlake. */
  function Pass(round: Round, z: seq<bv64>, l: Layout, n: nat): seq<bv64>
    requires n <= 8
    decreases n
  {
    if n == 0 then z else round(Pass(round, z, l, n - 1), Positions(l, n - 1))
  }

  /** After n steps of a pass, each of the first n groups holds perm of its words, and the
      words of the later groups are untouched. */
  lemma {:induction false} PassSpec(round: Round, perm: Permutation, z: seq<bv64>, l: Layout, n: nat)
    requires ActsAs(round, perm) && |z| == QWORDS && n <= 8
    ensures |Pass(round, z, l, n)| == QWORDS
    ensures forall j :: 0 <= j < n ==>
              Gather(Pass(round, z, l, n), Positions(l, j)) == perm(Gather(z, Positions(l, j)))
    ensures forall x :: 0 <= x < QWORDS && GroupOf(l, x) >= n ==> Pass(round, z, l, n)[x] == z[x]
  {
    if n > 0 {
      PassSpec(round, perm, z, l, n - 1);
      var y := Pass(round, z, l, n - 1);
      StepActs(round, perm, y, l, n - 1);
      PassStep(perm, z, y, round(y, Positions(l, n - 1)), l, n);
    }
  }

  /** Step j of a pass on a block: perm on group j, every other word kept. */
  lemma StepActs(round: Round, perm: Permutation, y: seq<bv64>, l: Layout, j: nat)
    requires ActsAs(round, perm) && |y| == QWORDS && j < 8
    ensures var r := round(y, Positions(l, j));
            |r| == QWORDS && Gather(r, Positions(l, j)) == perm(Gather(y, Positions(l, j)))
            && forall x :: 0 <= x < QWORDS && GroupOf(l, x) != j ==> r[x] == y[x]
  {
    var i := Positions(l, j);
    assert Spots(y, i);
    forall x | 0 <= x < QWORDS && GroupOf(l, x) != j
      ensures forall k :: 0 <= k < 16 ==> i[k] != x
    {
    }
  }

  /** The induction step of PassSpec. */
  lemma PassStep(perm: Permutation, z: seq<bv64>, y: seq<bv64>, r: seq<bv64>, l: Layout, n: nat)
    requires 0 < n <= 8 && |z| == QWORDS && |y| == QWORDS && |r| == QWORDS
    requires forall j :: 0 <= j < n - 1 ==> Gather(y, Positions(l, j)) == perm(Gather(z, Positions(l, j)))
    requires forall x :: 0 <= x < QWORDS && GroupOf(l, x) >= n - 1 ==> y[x] == z[x]
    requires Gather(r, Positions(l, n - 1)) == perm(Gather(y, Positions(l, n - 1)))
    requires forall x :: 0 <= x < QWORDS && GroupOf(l, x) != n - 1 ==> r[x] == y[x]
    ensures forall j :: 0 <= j < n ==> Gather(r, Positions(l, j)) == perm(Gather(z, Positions(l, j)))
    ensures forall x :: 0 <= x < QWORDS && GroupOf(l, x) >= n ==> r[x] == z[x]
  {
    GatherSame(y, z, l, n - 1);
    forall j | 0 <= j < n - 1
      ensures Gather(r, Positions(l, j)) == perm(Gather(z, Positions(l, j)))
    {
      GatherSame(r, y, l, j);
    }
  }

  /** Two blocks that agree on group j agree on the words gathered for step j. */
  lemma GatherSame(v: seq<bv64>, w: seq<bv64>, l: Layout, j: nat)
    requires j < 8 && |v| == QWORDS && |w| == QWORDS
    requires forall x :: 0 <= x < QWORDS && GroupOf(l, x) == j ==> v[x] == w[x]
    ensures Gather(v, Positions(l, j)) == Gather(w, Positions(l, j))
  {
  }

  /** The row pass and the column pass of applyBlake with a given round. */
  function RowPass(round: Round, z: seq<bv64>): seq<bv64> {
    Pass(round, z, Rows, 8)
  }

  function ColumnPass(round: Round, z: seq<bv64>): seq<bv64> {
    Pass(round, z, Columns, 8)
  }

  /** applyBlake: the row pass, then the column pass. */
  function ApplyBlakeBy(mix: Mixer, rot: Rotation, z: Block): (r: Block) {
    RoundActsAsP(mix, rot);
    PassSpec(RoundOf(mix, rot), PermOf(mix, rot), z, Rows, 8);
    PassSpec(RoundOf(mix, rot), PermOf(mix, rot), RowPass(RoundOf(mix, rot), z), Columns, 8);
    ColumnPass(RoundOf(mix, rot), RowPass(RoundOf(mix, rot), z))
  }

  /** applyBlake is the permutation of RFC 9106 section 3.5: P on each of the eight rows gives
      Q, and P on each of the eight columns of Q gives the result. */
  lemma ApplyBlakeIsP(mix: Mixer, rot: Rotation, z: Block, j: nat)
    requires j < 8
    ensures var q := RowPass(RoundOf(mix, rot), z);
            |q| == QWORDS
            && Gather(q, Positions(Rows, j)) == P(mix, rot, Gather(z, Positions(Rows, j)))
            && Gather(ApplyBlakeBy(mix, rot, z), Positions(Columns, j))
               == P(mix, rot, Gather(q, Positions(Columns, j)))
  {
    RoundActsAsP(mix, rot);
    PassSpec(RoundOf(mix, rot), PermOf(mix, rot), z, Rows, 8);
    PassSpec(RoundOf(mix, rot), PermOf(mix, rot), RowPass(RoundOf(mix, rot), z), Columns, 8);
  }

  // The fill operations of FillBlock

  /** The compression a fill applies to its input block. The generator's is COMPRESS, applyBlake
      with fBlaMka and rotateRight; the fill operations are stated for any. */
  type Compression = Block -> Block

  const COMPRESS: Compression := (z: Block) => ApplyBlakeBy(BLAMKA, ROTR, z)

  /** fillBlock(X, Y, currentBlock): with R = X ^ Y, the new block is R ^ applyBlake(R). */
  function FillBlock(perm: Compression, x: Block, y: Block): (r: Block)
    ensures forall i :: 0 <= i < QWORDS ==> r[i] == (x[i] ^ y[i]) ^ perm(Xor(x, y))[i]
  {
    var q := Xor(x, y);
    Xor(q, perm(q))
  }

  /** fillBlock(Y, currentBlock), used for address blocks: Y ^ applyBlake(Y). */
  function FillBlockFrom(perm: Compression, y: Block): (r: Block)
    ensures forall i :: 0 <= i < QWORDS ==> r[i] == y[i] ^ perm(y)[i]
  {
    Xor(y, perm(y))
  }

  /** fillBlockWithXor(X, Y, currentBlock): currentBlock.xorWith(R, Z), so word i of the block
      is xor-ed with R[i] ^ Z[i]. */
  function FillBlockWithXor(perm: Compression, x: Block, y: Block, current: Block): (r: Block)
    ensures forall i :: 0 <= i < QWORDS ==> r[i] == current[i] ^ FillBlock(perm, x, y)[i]
  {
    var q := Xor(x, y);
    Xor(current, Xor(q, perm(q)))
  }

  /** The one-block form is the two-block form with a zero first block: the address blocks are
      G(0, Y) of RFC 9106 section 3.4.1.2. */
  lemma FillBlockFromIsZeroFill(perm: Compression, y: Block)
    ensures FillBlockFrom(perm, y) == FillBlock(perm, ZeroBlock(), y)
  {
    assert Xor(ZeroBlock(), y) == y;
  }

  // Bytes

  /** fromBytes(input): the first 1024 bytes as 128 little-endian words; a shorter input is
      refused. */
  function FromBytes(input: seq<bv8>): (r: Result<Block>)
    ensures r.Err? <==> |input| < BLOCK_BYTES
    ensures r.Err? ==> r.error == IllegalArgument
    ensures r.Ok? ==> forall i :: 0 <= i < QWORDS ==> r.value[i] == LEToLong(input, 8 * i)
  {
    if |input| < BLOCK_BYTES then Err(IllegalArgument)
    else
      var ws := LEToLongs(input, 0, QWORDS);
      LEToLongsAt(input, 0, QWORDS);
      Ok(ws)
  }

  /** toBytes(output): the 128 words little-endian over the first 1024 bytes of the output;
      the rest of the output is kept and a shorter output is refused. */
  function ToBytes(b: Block, output: seq<bv8>): (r: Result<seq<bv8>>)
    ensures r.Err? <==> |output| < BLOCK_BYTES
    ensures r.Err? ==> r.error == IllegalArgument
    ensures r.Ok? ==> |r.value| == |output| && r.value[BLOCK_BYTES..] == output[BLOCK_BYTES..]
  {
    if |output| < BLOCK_BYTES then Err(IllegalArgument)
    else Ok(LongsToLE(b) + output[BLOCK_BYTES..])
  }

  /** A block written with toBytes and read back with fromBytes is the same block. */
  lemma BytesRoundTrip(b: Block, output: seq<bv8>)
    requires |output| >= BLOCK_BYTES
    ensures ToBytes(b, output).Ok? && FromBytes(ToBytes(b, output).value) == Ok(b)
  {
    var bs := LongsToLE(b) + output[BLOCK_BYTES..];
    LEToLongsOfLongsToLE(b);
    LEToLongsPrefix(bs, BLOCK_BYTES, QWORDS);
    assert bs[..BLOCK_BYTES] == LongsToLE(b);
  }

  /** Word i of an unpacked run is the word at byte 8 * i. */
  lemma {:induction false} LEToLongsAt(bs: seq<bv8>, off: nat, count: nat)
    requires off + 8 * count <= |bs|
    ensures forall i :: 0 <= i < count ==> LEToLongs(bs, off, count)[i] == LEToLong(bs, off + 8 * i)
    decreases count
  {
    if count > 0 {
      LEToLongsAt(bs, off + 8, count - 1);
    }
  }

  /** Unpacking only looks at the bytes it covers. */
  lemma {:induction false} LEToLongsPrefix(bs: seq<bv8>, n: nat, count: nat)
    requires 8 * count <= n <= |bs|
    ensures LEToLongs(bs, 0, count) == LEToLongs(bs[..n], 0, count)
  {
    LEToLongsAt(bs, 0, count);
    LEToLongsAt(bs[..n], 0, count);
    forall i | 0 <= i < count
      ensures LEToLong(bs, 8 * i) == LEToLong(bs[..n], 8 * i)
    {
      LEToIntPrefix(bs, n, 8 * i);
      LEToIntPrefix(bs, n, 8 * i + 4);
    }
  }
}
