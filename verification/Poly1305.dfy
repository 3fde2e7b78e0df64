/** The Poly1305 authenticator: hc/core/hc/crypto/poly1305.c against section 2.5 of RFC 8439.

    The accumulator lives in limbs of 44, 44 and 42 bits. `BlockStep` is what one block does to the limbs, `PolyAcc`
    is what the RFC says about the residue modulo 2^130 - 5. */
module Poly1305 {
  import opened Words
  import opened Memory

  const P: int := 0x3FFFFFFFFFFFFFFFFFFFFFFFFFFFFFFFB

  // The RFC's definition.

  // One block of at most 16 bytes with the byte 1 appended, as a number.
  function BlockNumber(c: seq<u8>): nat {
    LeNat(c) + Pow256(|c|)
  }

  function PolyAcc(r: int, a: int, msg: seq<u8>): int
    decreases |msg|
  {
    if |msg| == 0 then a
    else
      var n := if |msg| < 16 then |msg| else 16;
      PolyAcc(r, Absorb(r, a, msg[..n]), msg[n..])
  }

  function Absorb(r: int, a: int, c: seq<u8>): int {
    Times(a + BlockNumber(c), r)
  }

  function Times(x: int, y: int): int {
    (x * y) % P
  }

  function ClampedKey(key: seq<u8>): nat
    requires |key| == 32
  {
    And(LeNat(key[..16]), 0xFFFFFFC0FFFFFFC0FFFFFFC0FFFFFFF)
  }

  function RfcTag(key: seq<u8>, msg: seq<u8>): int
    requires |key| == 32
  {
    (PolyAcc(ClampedKey(key), 0, msg) + LeNat(key[16..])) % TWO_128
  }

  lemma PolyAccStep(r: int, a: int, x: seq<u8>)
    requires |x| >= 16
    ensures PolyAcc(r, a, x) == PolyAcc(r, Absorb(r, a, x[..16]), x[16..])
  {
  }

  // Whole blocks can be absorbed before the rest.
  lemma {:induction false} PolyAccConcat(r: int, a: int, x: seq<u8>, y: seq<u8>, n: nat)
    requires |x| == 16 * n
    ensures PolyAcc(r, a, x + y) == PolyAcc(r, PolyAcc(r, a, x), y)
    decreases n
  {
    hide Absorb, PolyAcc;
    if n == 0 {
      assert x + y == y;
      PolyAccEmpty(r, a, x);
    } else {
      PolyAccStep(r, a, x);
      PolyAccStep(r, a, x + y);
      PolyAccConcat(r, Absorb(r, a, x[..16]), x[16..], y, n - 1);
      assert (x + y)[..16] == x[..16];
      assert (x + y)[16..] == x[16..] + y;
    }
  }

  lemma PolyAccEmpty(r: int, a: int, c: seq<u8>)
    requires |c| == 0
    ensures PolyAcc(r, a, c) == a
  {
  }

  lemma PolyAccOne(r: int, a: int, c: seq<u8>)
    requires 0 < |c| <= 16
    ensures PolyAcc(r, a, c) == Absorb(r, a, c)
  {
    hide Absorb;
    assert c[..|c|] == c;
    assert PolyAcc(r, Absorb(r, a, c), c[|c|..]) == Absorb(r, a, c);
  }

  // Limbs.

  datatype Limbs = Limbs(l0: int, l1: int, l2: int)

  function Val(a0: int, a1: int, a2: int): int {
    a0 + a1 * 0x1000_0000_0000 + a2 * 0x100_0000_0000_0000_0000_0000
  }

  function Value(a: Limbs): int {
    Val(a.l0, a.l1, a.l2)
  }

  // What every block leaves behind.
  ghost predicate Carried(a: Limbs) {
    0 <= a.l0 < TWO_44 && 0 <= a.l1 < 0x100000001000 && 0 <= a.l2 < TWO_42
  }

  ghost predicate KeyLimbs(r: Limbs) {
    0 <= r.l0 < TWO_44 && 0 <= r.l1 < TWO_44 && 0 <= r.l2 < TWO_36
  }

  // `x & 0xFFFFFFFFFFF`, `x >> 44`, `x & 0x3FFFFFFFFFF`, `x >> 42`.

  function Lo44(x: int): int {
    x % TWO_44
  }

  function Hi44(x: int): int {
    x / TWO_44
  }

  function Lo42(x: int): int {
    x % TWO_42
  }

  function Hi42(x: int): int {
    x / TWO_42
  }

  lemma Split44(x: int)
    ensures x == Lo44(x) + TWO_44 * Hi44(x) && 0 <= Lo44(x) < TWO_44 && (x >= 0 ==> Hi44(x) >= 0)
  {
  }

  lemma Split42(x: int)
    ensures x == Lo42(x) + TWO_42 * Hi42(x) && 0 <= Lo42(x) < TWO_42 && (x >= 0 ==> Hi42(x) >= 0)
  {
  }

  // The middle limb of a 128-bit number given by two words: `((t0 >> 44) | (t1 << 20)) & 0xFFFFFFFFFFF`.
  function Middle(t0: int, t1: int): int {
    (t0 / TWO_44 + t1 * 0x100000 % TWO_64) % TWO_44
  }

  lemma WordLimbs(t0: u64, t1: u64)
    ensures 0 <= Middle(t0, t1) < TWO_44 && 0 <= t1 / 0x1000000 < TWO_40
    ensures Val(Lo44(t0), Middle(t0, t1), t1 / 0x1000000) == t0 + t1 * TWO_64
  {
    DivModUnique(t1 * 0x100000, TWO_64, t1 / TWO_44, t1 % TWO_44 * 0x100000);
    assert (t0 / TWO_44 + t1 % TWO_44 * 0x100000) % TWO_44 == t0 / TWO_44 + t1 % 0x1000000 * 0x100000 by {
      DivModUnique(t0 / TWO_44 + t1 % TWO_44 * 0x100000, TWO_44, t1 % TWO_44 / 0x1000000,
                   t0 / TWO_44 + t1 % 0x1000000 * 0x100000);
    }
  }

  // One block, limb by limb: lines 31-51.
  function BlockStep(a: Limbs, r: Limbs, t0: int, t1: int, hibit: int): Limbs {
    var s1, s2 := r.l1 * 20, r.l2 * 20;
    var h0, h1, h2 := a.l0 + Lo44(t0), a.l1 + Middle(t0, t1), a.l2 + (t1 / 0x1000000 + hibit);
    var d0 := Mul128(h0, r.l0) + Mul128(h1, s2) + Mul128(h2, s1);
    var d1 := Mul128(h0, r.l1) + Mul128(h1, r.l0) + Mul128(h2, s2) + Hi44(d0);
    var d2 := Mul128(h0, r.l2) + Mul128(h1, r.l1) + Mul128(h2, r.l0) + Hi44(d1);
    var g0 := Lo44(d0) + Hi42(d2) * 5;
    Limbs(Lo44(g0), Lo44(d1) + Hi44(g0), Lo42(d2))
  }

  lemma Row(c: int, a0: int, a1: int, a2: int)
    ensures Mul128(c, Val(a0, a1, a2)) == Val(Mul128(c, a0), Mul128(c, a1), Mul128(c, a2))
    ensures Mul128(Val(a0, a1, a2), c) == Val(Mul128(a0, c), Mul128(a1, c), Mul128(a2, c))
  {
  }

  // 2^132 is 20 modulo p.
  lemma FoldColumns(p00: int, p01: int, p02: int, p10: int, p11: int, p12: int, p20: int, p21: int, p22: int, k: int)
    requires k == 4 * (p12 + p21) + 4 * p22 * TWO_44
    ensures Val(Val(p00, p01, p02), Val(p10, p11, p12), Val(p20, p21, p22)) ==
            Val(p00 + 20 * p12 + 20 * p21, p01 + p10 + 20 * p22, p02 + p11 + p20) + k * P
  {
  }

  lemma Scale20(x: int, y: int)
    ensures Mul128(x, y * 20) == 20 * Mul128(x, y)
  {
  }

  lemma ProductResidue(a0: int, a1: int, a2: int, r0: int, r1: int, r2: int)
    ensures Val(Mul128(a0, r0) + Mul128(a1, r2 * 20) + Mul128(a2, r1 * 20),
                Mul128(a0, r1) + Mul128(a1, r0) + Mul128(a2, r2 * 20),
                Mul128(a0, r2) + Mul128(a1, r1) + Mul128(a2, r0)) % P
            == Mul128(Val(a0, a1, a2), Val(r0, r1, r2)) % P
  {
    hide Val, Mul128;
    Row(Val(r0, r1, r2), a0, a1, a2);
    Row(a0, r0, r1, r2);
    Row(a1, r0, r1, r2);
    Row(a2, r0, r1, r2);
    var k := 4 * (Mul128(a1, r2) + Mul128(a2, r1)) + 4 * Mul128(a2, r2) * TWO_44;
    Scale20(a1, r2);
    Scale20(a2, r1);
    Scale20(a2, r2);
    FoldColumns(Mul128(a0, r0), Mul128(a0, r1), Mul128(a0, r2), Mul128(a1, r0), Mul128(a1, r1), Mul128(a1, r2),
                Mul128(a2, r0), Mul128(a2, r1), Mul128(a2, r2), k);
    ModAddMultiple(Val(Mul128(a0, r0) + Mul128(a1, r2 * 20) + Mul128(a2, r1 * 20),
                       Mul128(a0, r1) + Mul128(a1, r0) + Mul128(a2, r2 * 20),
                       Mul128(a0, r2) + Mul128(a1, r1) + Mul128(a2, r0)),
                   k, P);
  }

  lemma CarryIdentity(d0: int, d1: int, d2: int, l0: int, h0: int, l1: int, h1: int, l2: int, h2: int, l3: int, h3: int)
    requires d0 == l0 + TWO_44 * h0 && d1 + h0 == l1 + TWO_44 * h1 && d2 + h1 == l2 + TWO_42 * h2 &&
             l0 + h2 * 5 == l3 + TWO_44 * h3
    ensures Val(l3, l1 + h3, l2) == Val(d0, d1, d2) - h2 * P
  {
  }

  // Bounds of every intermediate of a block, and the residue it leaves.
  lemma StepFacts(h0: int, h1: int, h2: int, r0: int, r1: int, r2: int)
    requires 0 <= h0 < TWO_45 && 0 <= h1 < TWO_46 && 0 <= h2 < TWO_43
    requires KeyLimbs(Limbs(r0, r1, r2))
    ensures var s1, s2 := r1 * 20, r2 * 20;
            var d0 := Mul128(h0, r0) + Mul128(h1, s2) + Mul128(h2, s1);
            var d1 := Mul128(h0, r1) + Mul128(h1, r0) + Mul128(h2, s2);
            var d2 := Mul128(h0, r2) + Mul128(h1, r1) + Mul128(h2, r0);
            var e1 := d1 + Hi44(d0);
            var e2 := d2 + Hi44(e1);
            var g0 := Lo44(d0) + Hi42(e2) * 5;
            0 <= d0 < TWO_96 && 0 <= d1 < TWO_96 && 0 <= d2 < TWO_96 && 0 <= e1 < TWO_97 && 0 <= e2 < TWO_97 &&
            0 <= Hi44(d0) < TWO_64 && 0 <= Hi44(e1) < TWO_64 && 0 <= Hi42(e2) < TWO_55 && 0 <= g0 < TWO_64 &&
            0 <= Lo44(d0) < TWO_44 && 0 <= Lo44(e1) < TWO_44 && 0 <= Lo42(e2) < TWO_42 && 0 <= Hi44(g0) < 0x1000 &&
            0 <= Lo44(g0) < TWO_44 &&
            Val(Lo44(g0), Lo44(e1) + Hi44(g0), Lo42(e2)) % P == Mul128(Val(h0, h1, h2), Val(r0, r1, r2)) % P
  {
    hide Val, Mul128, Lo44, Hi44, Lo42, Hi42;
    var s1, s2 := r1 * 20, r2 * 20;
    Mul128Bound(h0, r0, TWO_45, TWO_44);
    Mul128Bound(h1, s2, TWO_46, TWO_41);
    Mul128Bound(h2, s1, TWO_43, TWO_49);
    Mul128Bound(h0, r1, TWO_45, TWO_44);
    Mul128Bound(h1, r0, TWO_46, TWO_44);
    Mul128Bound(h2, s2, TWO_43, TWO_41);
    Mul128Bound(h0, r2, TWO_45, TWO_44);
    Mul128Bound(h1, r1, TWO_46, TWO_44);
    Mul128Bound(h2, r0, TWO_43, TWO_44);
    var d0 := Mul128(h0, r0) + Mul128(h1, s2) + Mul128(h2, s1);
    var d1 := Mul128(h0, r1) + Mul128(h1, r0) + Mul128(h2, s2);
    var d2 := Mul128(h0, r2) + Mul128(h1, r1) + Mul128(h2, r0);
    var e1 := d1 + Hi44(d0);
    var e2 := d2 + Hi44(e1);
    var g0 := Lo44(d0) + Hi42(e2) * 5;
    Split44(d0);
    Split44(e1);
    Split42(e2);
    Split44(g0);
    ProductResidue(h0, h1, h2, r0, r1, r2);
    CarryIdentity(d0, d1, d2, Lo44(d0), Hi44(d0), Lo44(e1), Hi44(e1), Lo42(e2), Hi42(e2), Lo44(g0), Hi44(g0));
    ModAddMultiple(Val(d0, d1, d2), -Hi42(e2), P);
  }

  lemma AddLimbs(a0: int, a1: int, a2: int, b0: int, b1: int, b2: int)
    ensures Val(a0 + b0, a1 + b1, a2 + b2) == Val(a0, a1, a2) + Val(b0, b1, b2)
  {
  }

  // A block keeps the limb bounds and multiplies accumulator plus block by r.
  lemma BlockStepCorrect(a: Limbs, r: Limbs, t0: u64, t1: u64, hibit: int)
    requires Carried(a) && KeyLimbs(r) && (hibit == 0 || hibit == TWO_40)
    ensures Carried(BlockStep(a, r, t0, t1, hibit))
    ensures Value(BlockStep(a, r, t0, t1, hibit)) % P ==
            Times(Value(a) % P + (t0 + t1 * TWO_64 + hibit * TWO_88), Value(r))
  {
    hide Val, Mul128, Lo44, Hi44, Lo42, Hi42, Middle, Times;
    WordLimbs(t0, t1);
    Split44(t0);
    var m0, m1, m2 := Lo44(t0), Middle(t0, t1), t1 / 0x1000000;
    StepFacts(a.l0 + m0, a.l1 + m1, a.l2 + (m2 + hibit), r.l0, r.l1, r.l2);
    AddLimbs(a.l0, a.l1, a.l2, m0, m1, m2 + hibit);
    AddLimbs(m0, m1, m2, 0, 0, hibit);
    HibitValue(hibit);
    ReduceFirst(Value(a), t0 + t1 * TWO_64 + hibit * TWO_88, Value(r));
  }

  lemma HibitValue(hibit: int)
    ensures Val(0, 0, hibit) == hibit * TWO_88
  {
  }

  lemma ReduceFirst(x: int, y: int, r: int)
    ensures Mul128(x + y, r) % P == Times(x % P + y, r)
  {
    ModMul(x + y, r, P);
    ModMul(x % P + y, r, P);
    ModAddMultiple(x % P + y, x / P, P);
    assert x + y == x % P + y + (x / P) * P;
  }

  // A run of blocks from one input.
  function Steps(a: Limbs, r: Limbs, input: seq<u8>, n: nat, hibit: int): Limbs
    requires 16 * n <= |input|
    decreases n
  {
    if n == 0 then a
    else Steps(BlockStep(a, r, LoadU64(input, 0), LoadU64(input, 8), hibit), r, input[16..], n - 1, hibit)
  }

  lemma BlockWords(c: seq<u8>)
    requires |c| == 16
    ensures LoadU64(c, 0) + LoadU64(c, 8) * TWO_64 == LeNat(c)
  {
    hide LeNat;
    ConcatWord(c[0..8], c[8..16]);
    assert c == c[0..8] + c[8..16];
  }

  lemma {:induction false} StepsCorrect(a: Limbs, r: Limbs, input: seq<u8>, n: nat)
    requires 16 * n <= |input| && Carried(a) && KeyLimbs(r)
    ensures Carried(Steps(a, r, input, n, TWO_40))
    ensures Value(Steps(a, r, input, n, TWO_40)) % P == PolyAcc(Value(r), Value(a) % P, input[..16 * n])
    decreases n
  {
    hide PolyAcc, Absorb, BlockStep, LoadU64, Value, Carried, KeyLimbs, Steps;
    if n == 0 {
      StepsDone(a, r, input, TWO_40);
      PolyAccEmpty(Value(r), Value(a) % P, input[..0]);
    } else {
      var c, rest := input[..16], input[16..];
      FullBlock(a, r, input);
      StepsUnfold(a, r, input, n, TWO_40);
      StepsCorrect(BlockStep(a, r, LoadU64(input, 0), LoadU64(input, 8), TWO_40), r, rest, n - 1);
      PolyAccStep(Value(r), Value(a) % P, input[..16 * n]);
      assert input[..16 * n][..16] == c && input[..16 * n][16..] == rest[..16 * (n - 1)];
    }
  }

  lemma FullBlock(a: Limbs, r: Limbs, input: seq<u8>)
    requires 16 <= |input| && Carried(a) && KeyLimbs(r)
    ensures var b := BlockStep(a, r, LoadU64(input, 0), LoadU64(input, 8), TWO_40);
            Carried(b) && Value(b) % P == Absorb(Value(r), Value(a) % P, input[..16])
  {
    hide LeNat, Pow256, BlockStep, Value, Carried, KeyLimbs, Times;
    BlockStepCorrect(a, r, LoadU64(input, 0), LoadU64(input, 8), TWO_40);
    assert input[..16][0..8] == input[0..8] && input[..16][8..16] == input[8..16];
    BlockWords(input[..16]);
    Pow256Offsets();
  }

  // The last, padded block of a message that does not end on a block boundary.
  function Padded(c: seq<u8>): (p: seq<u8>)
    requires |c| < 16
    ensures |p| == 16
  {
    c + [1] + seq(15 - |c|, _ => 0)
  }

  lemma {:induction false} LeNatZeros(n: nat)
    ensures LeNat(seq(n, _ => 0)) == 0
  {
    if n > 0 {
      LeNatZeros(n - 1);
      var z: seq<u8> := seq(n, _ => 0);
      assert z[1..] == seq(n - 1, _ => 0);
    }
  }

  lemma PaddedNumber(c: seq<u8>)
    requires |c| < 16
    ensures LeNat(Padded(c)) == BlockNumber(c)
  {
    var z: seq<u8> := seq(15 - |c|, _ => 0);
    LeNatZeros(15 - |c|);
    assert ([1] + z)[1..] == z;
    assert LeNat([1] + z) == 1;
    assert Padded(c) == c + ([1] + z);
    LeNatConcat(c, [1] + z);
  }

  // The limbs once the buffered tail is absorbed.
  function Closed(a: Limbs, r: Limbs, tail: seq<u8>): Limbs
    requires |tail| < 16
  {
    if |tail| == 0 then a
    else BlockStep(a, r, LoadU64(Padded(tail), 0), LoadU64(Padded(tail), 8), 0)
  }

  lemma ClosedCorrect(a: Limbs, r: Limbs, tail: seq<u8>)
    requires |tail| < 16 && Carried(a) && KeyLimbs(r)
    ensures Carried(Closed(a, r, tail))
    ensures Value(Closed(a, r, tail)) % P == PolyAcc(Value(r), Value(a) % P, tail)
  {
    hide LeNat, Pow256, BlockStep, Value, Carried, KeyLimbs, Times, PolyAcc, Padded, LoadU64;
    if |tail| == 0 {
      PolyAccEmpty(Value(r), Value(a) % P, tail);
    } else {
      var p := Padded(tail);
      BlockStepCorrect(a, r, LoadU64(p, 0), LoadU64(p, 8), 0);
      BlockWords(p);
      PaddedNumber(tail);
      PolyAccOne(Value(r), Value(a) % P, tail);
    }
  }

  // Lines 118-129: the limbs fully in place, which leaves a number below 2^130.
  function FullCarry(a: Limbs): Limbs {
    var l2 := a.l2 + Hi44(a.l1);
    var l1 := Lo44(a.l1);
    var l0 := a.l0 + Hi42(l2) * 5;
    var k1 := l1 + Hi44(l0);
    var k2 := Lo42(l2) + Hi44(k1);
    var k0 := Lo44(l0) + Hi42(k2) * 5;
    Limbs(Lo44(k0), Lo44(k1) + Hi44(k0), Lo42(k2))
  }

  // Every intermediate of the final carries stays far below 2^64.
  lemma FullCarryFits(a: Limbs)
    requires Carried(a)
    ensures var l2 := a.l2 + Hi44(a.l1);
            var l0 := a.l0 + Hi42(l2) * 5;
            var k1 := Lo44(a.l1) + Hi44(l0);
            var k2 := Lo42(l2) + Hi44(k1);
            var k0 := Lo44(l0) + Hi42(k2) * 5;
            0 <= l2 < TWO_45 && 0 <= Lo44(a.l1) < TWO_44 && 0 <= l0 < TWO_45 && 0 <= Lo42(l2) < TWO_44 &&
            0 <= k1 < TWO_45 && 0 <= Lo44(l0) < TWO_44 && 0 <= k2 < TWO_45 && 0 <= Lo44(k1) < TWO_44 &&
            0 <= k0 < TWO_45 && 0 <= Lo42(k2) < TWO_44 && 0 <= Lo44(k1) + Hi44(k0) < TWO_45 && 0 <= Lo44(k0) < TWO_44
  {
    hide Lo44, Hi44, Lo42, Hi42;
    var l2 := a.l2 + Hi44(a.l1);
    CarryFits(a.l1);
    CarryFits(l2);
    var l0 := a.l0 + Hi42(l2) * 5;
    CarryFits(l0);
    var k1 := Lo44(a.l1) + Hi44(l0);
    CarryFits(k1);
    var k2 := Lo42(l2) + Hi44(k1);
    CarryFits(k2);
    CarryFits(Lo44(l0) + Hi42(k2) * 5);
  }

  lemma CarryFits(x: int)
    requires 0 <= x < TWO_45
    ensures 0 <= Lo44(x) < TWO_44 && 0 <= Hi44(x) <= 1 && 0 <= Lo42(x) < TWO_42 && 0 <= Hi42(x) <= 7
  {
    hide Lo44, Hi44, Lo42, Hi42;
    Split44(x);
    Split42(x);
  }

  lemma FullCarryCorrect(a: Limbs)
    requires Carried(a)
    ensures var c := FullCarry(a);
            0 <= c.l0 < TWO_44 && 0 <= c.l1 < TWO_44 && 0 <= c.l2 < TWO_42 && Value(c) % P == Value(a) % P &&
            0 <= Value(c) < TWO_130
  {
    hide Lo44, Hi44, Lo42, Hi42;
    var l2 := a.l2 + Hi44(a.l1);
    var l0 := a.l0 + Hi42(l2) * 5;
    var k1 := Lo44(a.l1) + Hi44(l0);
    var k2 := Lo42(l2) + Hi44(k1);
    var k0 := Lo44(l0) + Hi42(k2) * 5;
    Split44(a.l1);
    Split42(l2);
    Split44(l0);
    Split44(k1);
    Split42(k2);
    Split44(k0);
    if Hi42(l2) == 0 {
      assert Hi44(l0) == 0 && Hi44(k1) == 0 && Hi42(k2) == 0;
    } else {
      assert Hi42(l2) == 1 && Lo42(l2) == 0 && Hi42(k2) == 0;
    }
    var c := FullCarry(a);
    assert Value(c) == Value(a) - Hi42(l2) * P;
    hide Value, FullCarry;
    ModAddMultiple(Value(a), -Hi42(l2), P);
  }

  // Clamping, limb by limb.

  lemma AndLow(x: nat, m: nat)
    requires m < TWO_44
    ensures And(x, m) == And(x % TWO_44, m)
  {
    Pow44();
    hide *;
    var lo, hi := x % TWO_44, x / TWO_44;
    AndSplit(lo, hi, m, 0, 44);
    AndZero(hi);
  }

  lemma AndZero(x: nat)
    ensures And(x, 0) == 0
  {
  }

  lemma Pow44()
    ensures Pow2(44) == TWO_44
  {
    assert Pow2(11) == 0x800;
    hide *;
    Pow2Sum(11, 0x800, 11, 0x800, 22);
    Pow2Sum(22, 0x400000, 22, 0x400000, 44);
  }

  lemma ClampLimbs(t0: u64, t1: u64)
    ensures var r := Limbs(And(t0, 0xFFC0FFFFFFF), And(t0 / TWO_44 + t1 * 0x100000 % TWO_64, 0xFFFFFC0FFFF),
                           And(t1 / 0x1000000, 0x00FFFFFFC0F));
            KeyLimbs(r) && Value(r) == And(t0 + t1 * TWO_64, 0xFFFFFFC0FFFFFFC0FFFFFFC0FFFFFFF)
  {
    hide And, Pow2, Val;
    var x: nat := t0 / TWO_44 + t1 * 0x100000 % TWO_64;
    var k0, k1, k2 := Lo44(t0), Middle(t0, t1), t1 / 0x1000000;
    WordLimbs(t0, t1);
    AndLow(t0, 0xFFC0FFFFFFF);
    AndLow(x, 0xFFFFFC0FFFF);
    hide Lo44, Middle;
    AndBound(k0, 0xFFC0FFFFFFF);
    AndBound(k1, 0xFFFFFC0FFFF);
    AndBound(k2, 0x00FFFFFFC0F);
    AndLimbs(k0, k1, k2);
  }

  lemma AndLimbs(k0: nat, k1: nat, k2: nat)
    requires k0 < TWO_44 && k1 < TWO_44
    ensures And(Val(k0, k1, k2), 0xFFFFFFC0FFFFFFC0FFFFFFC0FFFFFFF) ==
            Val(And(k0, 0xFFC0FFFFFFF), And(k1, 0xFFFFFC0FFFF), And(k2, 0x00FFFFFFC0F))
  {
    hide And, Pow2;
    Pow44();
    AndSplit(k1, k2, 0xFFFFFC0FFFF, 0x00FFFFFFC0F, 44);
    AndSplit(k0, k1 + TWO_44 * k2, 0xFFC0FFFFFFF, 0xFFFFFC0FFFF + TWO_44 * 0x00FFFFFFC0F, 44);
    assert Val(k0, k1, k2) == k0 + TWO_44 * (k1 + TWO_44 * k2);
    assert 0xFFFFFFC0FFFFFFC0FFFFFFC0FFFFFFF == 0xFFC0FFFFFFF + TWO_44 * (0xFFFFFC0FFFF + TWO_44 * 0x00FFFFFFC0F);
  }

  // Lines 152-161: adding the pad and packing, modulo 2^128.
  lemma PackTag(a: Limbs, t0: u64, t1: u64)
    requires 0 <= a.l0 < TWO_44 && 0 <= a.l1 < TWO_44 && 0 <= a.l2 < TWO_42
    ensures var h0 := a.l0 + Lo44(t0);
            var h1 := a.l1 + Middle(t0, t1) + Hi44(h0);
            var h2 := a.l2 + t1 / 0x1000000 + Hi44(h1);
            var w0 := Lo44(h0) + Lo44(h1) * TWO_44 % TWO_64;
            var w1 := Lo44(h1) / 0x100000 + Lo42(h2) * 0x1000000 % TWO_64;
            0 <= h0 < TWO_46 && 0 <= h1 < TWO_46 && 0 <= h2 < TWO_43 && 0 <= w0 < TWO_64 && 0 <= w1 < TWO_64 &&
            w0 + w1 * TWO_64 == (Value(a) + t0 + t1 * TWO_64) % TWO_128
  {
    hide Middle, Lo44, Hi44, Lo42, Hi42, Val;
    WordLimbs(t0, t1);
    Split44(t0);
    var h0 := a.l0 + Lo44(t0);
    var h1 := a.l1 + Middle(t0, t1) + Hi44(h0);
    var h2 := a.l2 + t1 / 0x1000000 + Hi44(h1);
    var x, y, z := Lo44(h0), Lo44(h1), Lo42(h2);
    Split44(h0);
    Split44(h1);
    Split42(h2);
    PadIdentity(a.l0, a.l1, a.l2, Lo44(t0), Middle(t0, t1), t1 / 0x1000000, x, Hi44(h0), y, Hi44(h1), z, Hi42(h2));
    PackWords(x, y, z);
    ModuloTag(Value(a) + t0 + t1 * TWO_64, Val(x, y, z), Hi42(h2), Val(x, y, z % TWO_40), z / TWO_40);
  }

  lemma PadIdentity(a0: int, a1: int, a2: int, b0: int, b1: int, b2: int, x0: int, h0: int, x1: int, h1: int, x2: int,
                    h2: int)
    requires a0 + b0 == x0 + TWO_44 * h0 && a1 + b1 + h0 == x1 + TWO_44 * h1 && a2 + b2 + h1 == x2 + TWO_42 * h2
    ensures Val(a0, a1, a2) + Val(b0, b1, b2) == Val(x0, x1, x2) + TWO_130 * h2
  {
  }

  lemma ModuloTag(sum: int, v: int, top: int, low: int, high: int)
    requires sum == v + TWO_130 * top && v == low + TWO_128 * high && 0 <= low < TWO_128
    ensures low == sum % TWO_128
  {
    DivModUnique(sum, TWO_128, high + 4 * top, low);
  }

  lemma PackWords(x0: int, x1: int, x2: int)
    requires 0 <= x0 < TWO_44 && 0 <= x1 < TWO_44 && 0 <= x2 < TWO_42
    ensures var w0, w1 := x0 + x1 * TWO_44 % TWO_64, x1 / 0x100000 + x2 * 0x1000000 % TWO_64;
            0 <= w0 < TWO_64 && 0 <= w1 < TWO_64 && w0 + w1 * TWO_64 == Val(x0, x1, x2 % TWO_40)
    ensures 0 <= Val(x0, x1, x2 % TWO_40) < TWO_128
    ensures Val(x0, x1, x2) == Val(x0, x1, x2 % TWO_40) + TWO_128 * (x2 / TWO_40)
  {
    DivModUnique(x1 * TWO_44, TWO_64, x1 / 0x100000, x1 % 0x100000 * TWO_44);
    DivModUnique(x2 * 0x1000000, TWO_64, x2 / TWO_40, x2 % TWO_40 * 0x1000000);
  }

  // The comparison constant on line 134 is 2^43 where 2^130 sits at 2^42, so the selection always keeps h.
  lemma SelectionKeeps(x: u64, g: u64)
    ensures Or(And(x, 0xFFFF_FFFF_FFFF_FFFF), And(g, 0)) == x
  {
    hide And, Or, Pow2;
    Pow64();
    AndMask(x, 64);
    AndZero(g);
    OrZero(x);
  }

  // What the tag would have to be, and when it is: the missing subtraction matters exactly from p on.
  lemma TagCorrectness(carried: int, acc: int, pad: int)
    requires 0 <= carried < TWO_130 && acc == carried % P
    ensures (carried + pad) % TWO_128 == (acc + pad) % TWO_128 <==> carried < P
  {
    if carried < P {
      DivModUnique(carried, P, 0, carried);
    } else {
      DivModUnique(carried, P, 1, carried - P);
      var x, y := carried + pad, acc + pad;
      var qx, qy := x / TWO_128, y / TWO_128;
      assert x - y == P;
    }
  }

  class Mac {
    var r0: u64
    var r1: u64
    var r2: u64
    var h0: u64
    var h1: u64
    var h2: u64
    var pad0: u64
    var pad1: u64
    var bufferSize: nat
    const buffer: array<u8>

    // The key, and the whole blocks absorbed so far.
    ghost var key: seq<u8>
    ghost var done: seq<u8>

    function R(): Limbs
      reads this`r0, this`r1, this`r2
    {
      Limbs(r0, r1, r2)
    }

    function H(): Limbs
      reads this`h0, this`h1, this`h2
    {
      Limbs(h0, h1, h2)
    }

    ghost predicate KeySet()
      reads this`key, this`r0, this`r1, this`r2, this`pad0, this`pad1
    {
      buffer.Length == 16 && |key| == 32 && R() == KeyPart(key) && KeyLimbs(R()) &&
        pad0 + pad1 * TWO_64 == LeNat(key[16..])
    }

    // Limb bounds, and the residue of the whole blocks.
    ghost predicate Absorbed()
      reads this`done, this`r0, this`r1, this`r2, this`h0, this`h1, this`h2
    {
      |done| % 16 == 0 && KeyLimbs(R()) && Carried(H()) && H() == Steps(Limbs(0, 0, 0), R(), done, |done| / 16, TWO_40)
    }

    ghost predicate Valid()
      reads this, buffer
    {
      KeySet() && Absorbed() && bufferSize < 16
    }

    // Everything passed to `Update` so far.
    ghost function Message(): seq<u8>
      requires buffer.Length == 16 && bufferSize <= 16
      reads this`done, this`bufferSize, buffer
    {
      done + buffer[..bufferSize]
    }

    constructor (key: seq<u8>)
      requires |key| == 32
      ensures Valid() && this.key == key && Message() == [] && fresh(buffer)
    {
      hide LeNat, And, LoadU64, Value;
      bufferSize := 0;
      var t0: u64, t1: u64 := LoadU64(key, 0), LoadU64(key, 8);
      ClampKey(key);
      r0 := And(t0, 0xFFC0FFFFFFF);
      r1 := And(t0 / TWO_44 + t1 as int * 0x100000 % TWO_64, 0xFFFFFC0FFFF);
      r2 := And(t1 / 0x1000000, 0x00FFFFFFC0F);
      h0, h1, h2 := 0, 0, 0;
      pad0, pad1 := LoadU64(key, 16), LoadU64(key, 24);
      buffer := new u8[16];
      this.key := key;
      done := [];
    }

    method Blocks(input: seq<u8>, numBlocks: nat, hibit: u64)
      requires 16 * numBlocks <= |input| && numBlocks > 0 && Carried(H()) && KeyLimbs(R())
      requires hibit == 0 || hibit == TWO_40
      modifies this`h0, this`h1, this`h2
      ensures Carried(H()) && H() == Steps(old(H()), R(), input, numBlocks, hibit)
    {
      hide Val, Mul128, Lo44, Hi44, Lo42, Hi42, Middle, LoadU64, BlockStep, Steps;
      var k0, k1, k2 := h0, h1, h2;
      var rest, left := input, numBlocks;
      while true
        invariant 0 < left && 16 * left <= |rest|
        invariant Carried(Limbs(k0, k1, k2))
        invariant Steps(Limbs(k0, k1, k2), R(), rest, left, hibit) == Steps(old(H()), R(), input, numBlocks, hibit)
        decreases left
      {
        StepsUnfold(Limbs(k0, k1, k2), R(), rest, left, hibit);
        k0, k1, k2 := OneBlock(k0, k1, k2, LoadU64(rest, 0), LoadU64(rest, 8), hibit);
        rest := rest[16..];
        left := left - 1;
        if left == 0 {
          StepsDone(Limbs(k0, k1, k2), R(), rest, hibit);
          break;
        }
      }
      h0, h1, h2 := k0, k1, k2;
    }

    method AbsorbBlocks(input: seq<u8>, numBlocks: nat)
      requires 16 * numBlocks <= |input| && numBlocks > 0 && Absorbed()
      modifies this`h0, this`h1, this`h2, this`done
      ensures Absorbed() && done == old(done) + input[..16 * numBlocks]
    {
      hide Steps, BlockStep, LoadU64;
      StepsPrefix(H(), R(), input, numBlocks, TWO_40);
      StepsConcat(Limbs(0, 0, 0), R(), done, |done| / 16, input[..16 * numBlocks], numBlocks, TWO_40);
      Blocks(input, numBlocks, TWO_40);
      done := done + input[..16 * numBlocks];
    }

    method Update(input: seq<u8>)
      requires Valid()
      modifies this`h0, this`h1, this`h2, this`bufferSize, this`done, buffer
      ensures Valid() && Message() == old(Message()) + input && key == old(key)
    {
      KeyBuffer();
      hide KeySet, Absorbed;
      ghost var before, held := done, buffer[..bufferSize];
      if bufferSize == 0 {
        Regroup(before, held, input, 0);
        TakeRest(input);
        return;
      }
      var numToRead := TopUp(buffer, bufferSize, input);
      bufferSize := bufferSize + numToRead;
      Regroup(before, held, input, numToRead);
      if bufferSize < 16 {
        return;
      }
      ghost var full := buffer[..bufferSize];
      assert buffer[..][..16 * 1] == full;
      AbsorbBlocks(buffer[..], 1);
      TakeRest(input[numToRead..]);
    }

    lemma KeyBuffer()
      requires KeySet()
      ensures buffer.Length == 16
    {
    }

    // Lines 95-102: whole blocks straight from the input, the remainder into the buffer.
    method TakeRest(rest: seq<u8>)
      requires buffer.Length == 16 && Absorbed()
      modifies this`h0, this`h1, this`h2, this`bufferSize, this`done, buffer
      ensures Absorbed() && bufferSize < 16 && Message() == old(done) + rest
    {
      hide Absorbed;
      var numBlocks := |rest| / 16;
      if numBlocks > 0 {
        AbsorbBlocks(rest, numBlocks);
      }
      bufferSize := |rest| % 16;
      ghost var from := 16 * numBlocks;
      assert rest == rest[..from] + rest[from..] && |rest| - bufferSize == from;
      KeepTail(buffer, rest, bufferSize);
      WholeThenTail(old(done), rest[..from], rest[from..]);
    }

    // The tag, which is the RFC's exactly when the carried accumulator is below p.
    method Finish() returns (mac: array<u8>)
      requires Valid()
      modifies this`h0, this`h1, this`h2, this`bufferSize, buffer
      ensures fresh(mac) && mac.Length == 16
      ensures LeNat(mac[..]) == (FinalNumber(key, old(Message())) + LeNat(key[16..])) % TWO_128
      ensures LeNat(mac[..]) == RfcTag(key, old(Message())) <==> FinalNumber(key, old(Message())) < P
      ensures FinalNumber(key, old(Message())) >= P ==>
                PolyAcc(ClampedKey(key), 0, old(Message())) < 5 &&
                LeNat(mac[..]) == (RfcTag(key, old(Message())) - 5) % TWO_128
    {
      hide Steps, BlockStep, LoadU64, LeNat, FullCarry, Value, FinalNumber, RfcTag, KeyPart, Padded, PolyAcc,
        ClampedKey;
      FinalState(key, done, buffer[..bufferSize], |done| / 16);
      FinalTag(key, Message());
      if FinalNumber(key, Message()) >= P {
        FiveValues(key, Message());
      }
      if bufferSize > 0 {
        PadBuffer();
        StepsUnfold(H(), R(), buffer[..], 1, 0);
        StepsDone(BlockStep(H(), R(), LoadU64(buffer[..], 0), LoadU64(buffer[..], 8), 0), R(), buffer[..][16..], 0);
        Blocks(buffer[..], 1, 0);
      }
      FullCarryCorrect(H());
      var k0, k1, k2 := CarryFully();
      k0, k1, k2 := SelectReduced(k0, k1, k2);
      mac := AddPad(k0, k1, k2);
    }

    // Lines 114-129.
    method CarryFully() returns (k0: u64, k1: u64, k2: u64)
      requires Carried(H())
      ensures Limbs(k0, k1, k2) == FullCarry(H())
    {
      hide Lo44, Hi44, Lo42, Hi42, Carried;
      FullCarryFits(H());
      k0, k1, k2 := h0, h1, h2;
      k2 := k2 + Hi44(k1);
      k1 := Lo44(k1);
      k0 := k0 + Hi42(k2) * 5;
      k2 := Lo42(k2);
      k1 := k1 + Hi44(k0);
      k0 := Lo44(k0);
      k2 := k2 + Hi44(k1);
      k1 := Lo44(k1);
      k0 := k0 + Hi42(k2) * 5;
      k2 := Lo42(k2);
      k1 := k1 + Hi44(k0);
      k0 := Lo44(k0);
    }

    // Lines 131-146, meant to subtract p from a value that is not below it. Line 134 compares with 2^131 instead
    // of 2^130, so the mask is zero and the value is kept.
    method SelectReduced(h0: u64, h1: u64, h2: u64) returns (k0: u64, k1: u64, k2: u64)
      requires h0 < TWO_44 && h1 < TWO_44 && h2 < TWO_42
      ensures k0 == h0 && k1 == h1 && k2 == h2
    {
      hide Lo44, Hi44, And, Or;
      var g0: u64 := h0 + 5;
      Split44(g0);
      var g1: u64 := h1 + Hi44(g0);
      Split44(g1);
      var g2: u64 := (h2 + Hi44(g1) - TWO_43) % TWO_64;
      g0, g1 := Lo44(g0), Lo44(g1);
      DivModUnique(h2 + Hi44(h1 + Hi44(h0 + 5)) - TWO_43, TWO_64, -1, h2 + Hi44(h1 + Hi44(h0 + 5)) - TWO_43 + TWO_64);
      var c: u64 := (g2 / TWO_63 - 1) % TWO_64;
      var notC: u64 := 0xFFFF_FFFF_FFFF_FFFF - c;
      SelectionKeeps(h0, g0);
      SelectionKeeps(h1, g1);
      SelectionKeeps(h2, g2);
      k0 := Or(And(h0, notC), And(g0, c));
      k1 := Or(And(h1, notC), And(g1, c));
      k2 := Or(And(h2, notC), And(g2, c));
    }

    // Lines 148-164.
    method AddPad(a0: u64, a1: u64, a2: u64) returns (mac: array<u8>)
      requires a0 < TWO_44 && a1 < TWO_44 && a2 < TWO_42
      ensures fresh(mac) && mac.Length == 16
      ensures LeNat(mac[..]) == (Value(Limbs(a0, a1, a2)) + pad0 + pad1 * TWO_64) % TWO_128
    {
      hide Lo44, Hi44, Lo42, Middle, Value, LeNat, LeBytes;
      PackTag(Limbs(a0, a1, a2), pad0, pad1);
      WordLimbs(pad0, pad1);
      Split44(pad0);
      var k0: u64 := a0 + Lo44(pad0);
      Split44(k0);
      var k1: u64 := a1 + (Middle(pad0, pad1) + Hi44(k0));
      Split44(k1);
      var k2: u64 := a2 + (pad1 / 0x1000000 + Hi44(k1));
      Split42(k2);
      var x0: int, x1: int, x2: int := Lo44(k0), Lo44(k1), Lo42(k2);
      mac := new u8[16];
      StoreTag(mac, x0 + x1 * TWO_44 % TWO_64, x1 / 0x100000 + x2 * 0x1000000 % TWO_64);
    }

    // Lines 107-109.
    method PadBuffer()
      requires buffer.Length == 16 && 0 < bufferSize < 16
      modifies buffer
      ensures buffer[..] == Padded(old(buffer[..bufferSize]))
    {
      ghost var tail := buffer[..bufferSize];
      buffer[bufferSize] := 1;
      for i := bufferSize + 1 to 16
        invariant buffer[..bufferSize] == tail && buffer[bufferSize] == 1
        invariant forall k :: bufferSize < k < i ==> buffer[k] == 0
      {
        buffer[i] := 0;
      }
      assert buffer[..] == tail + [1] + buffer[bufferSize + 1..];
    }

    // The loop body in 64 and 128-bit words.
    method OneBlock(a0: u64, a1: u64, a2: u64, t0: u64, t1: u64, hibit: u64) returns (k0: u64, k1: u64, k2: u64)
      requires Carried(Limbs(a0, a1, a2)) && KeyLimbs(R()) && (hibit == 0 || hibit == TWO_40)
      ensures Limbs(k0, k1, k2) == BlockStep(Limbs(a0, a1, a2), R(), t0, t1, hibit)
      ensures Carried(Limbs(k0, k1, k2))
    {
      hide Val, Mul128, Lo44, Hi44, Lo42, Hi42, Middle, Times;
      BlockStepCorrect(Limbs(a0, a1, a2), R(), t0, t1, hibit);
      WordLimbs(t0, t1);
      Split44(t0);
      StepFacts(a0 + Lo44(t0), a1 + Middle(t0, t1), a2 + (t1 / 0x1000000 + hibit), r0, r1, r2);
      var s1: u64, s2: u64 := r1 * 20, r2 * 20;
      k0 := a0 + Lo44(t0);
      k1 := a1 + Middle(t0, t1);
      k2 := a2 + (t1 / 0x1000000 + hibit);
      var d0: u128 := Mul128(k0, r0) + Mul128(k1, s2) + Mul128(k2, s1);
      var d1: u128 := Mul128(k0, r1) + Mul128(k1, r0) + Mul128(k2, s2);
      var d2: u128 := Mul128(k0, r2) + Mul128(k1, r1) + Mul128(k2, r0);
      k0 := Lo44(d0);
      var c: u64 := Hi44(d0);
      d1 := d1 + c;
      k1 := Lo44(d1);
      c := Hi44(d1);
      d2 := d2 + c;
      k2 := Lo42(d2);
      c := Hi42(d2);
      k0 := k0 + c * 5;
      k1 := k1 + Hi44(k0);
      k0 := Lo44(k0);
    }
  }

  // A whole computation: init, any number of updates, finish. The tag depends on the concatenation only.
  method Authenticate(key: seq<u8>, chunks: seq<seq<u8>>) returns (mac: array<u8>)
    requires |key| == 32
    ensures fresh(mac) && mac.Length == 16
    ensures LeNat(mac[..]) == (FinalNumber(key, Concat(chunks)) + LeNat(key[16..])) % TWO_128
    ensures LeNat(mac[..]) == RfcTag(key, Concat(chunks)) <==> FinalNumber(key, Concat(chunks)) < P
    ensures FinalNumber(key, Concat(chunks)) >= P ==>
              PolyAcc(ClampedKey(key), 0, Concat(chunks)) < 5 &&
              LeNat(mac[..]) == (RfcTag(key, Concat(chunks)) - 5) % TWO_128
  {
    hide FinalNumber, RfcTag, LeNat, KeyPart, Steps, KeyLimbs, Carried, PolyAcc, ClampedKey;
    var m := new Mac(key);
    assert chunks[0..] == chunks && [] + Concat(chunks) == Concat(chunks);
    for k := 0 to |chunks|
      invariant m.Valid() && m.key == key && fresh(m) && fresh(m.buffer)
      invariant m.Message() + Concat(chunks[k..]) == Concat(chunks)
    {
      ghost var before := m.Message();
      m.Update(chunks[k]);
      assert chunks[k..][1..] == chunks[k + 1..];
      assert (before + chunks[k]) + Concat(chunks[k + 1..]) == before + (chunks[k] + Concat(chunks[k + 1..]));
    }
    assert m.Message() + [] == m.Message();
    mac := m.Finish();
  }

  lemma {:induction false} StepsConcat(a: Limbs, r: Limbs, x: seq<u8>, m: nat, y: seq<u8>, n: nat, hibit: int)
    requires |x| == 16 * m && 16 * n <= |y|
    ensures Steps(a, r, x + y, m + n, hibit) == Steps(Steps(a, r, x, m, hibit), r, y, n, hibit)
    decreases m
  {
    hide Steps, BlockStep, LoadU64;
    if m == 0 {
      assert x + y == y;
      StepsDone(a, r, x, hibit);
    } else {
      StepsConcat(BlockStep(a, r, LoadU64(x, 0), LoadU64(x, 8), hibit), r, x[16..], m - 1, y, n, hibit);
      StepsUnfold(a, r, x + y, m + n, hibit);
      StepsUnfold(a, r, x, m, hibit);
      assert (x + y)[..16] == x[..16];
      SameLoads(x + y, x);
      assert (x + y)[16..] == x[16..] + y;
    }
  }

  lemma SameLoads(x: seq<u8>, y: seq<u8>)
    requires |x| >= 16 && |y| >= 16 && x[..16] == y[..16]
    ensures LoadU64(x, 0) == LoadU64(y, 0) && LoadU64(x, 8) == LoadU64(y, 8)
  {
    assert x[0..8] == x[..16][0..8] && x[8..16] == x[..16][8..16];
    assert y[0..8] == y[..16][0..8] && y[8..16] == y[..16][8..16];
  }

  lemma {:induction false} StepsPrefix(a: Limbs, r: Limbs, y: seq<u8>, n: nat, hibit: int)
    requires 16 * n <= |y|
    ensures Steps(a, r, y[..16 * n], n, hibit) == Steps(a, r, y, n, hibit)
    decreases n
  {
    hide Steps, BlockStep, LoadU64;
    if n == 0 {
      StepsDone(a, r, y, hibit);
      StepsDone(a, r, y[..0], hibit);
    } else {
      var z := y[..16 * n];
      StepsPrefix(BlockStep(a, r, LoadU64(y, 0), LoadU64(y, 8), hibit), r, y[16..], n - 1, hibit);
      StepsUnfold(a, r, z, n, hibit);
      StepsUnfold(a, r, y, n, hibit);
      assert z[..16] == y[..16];
      SameLoads(z, y);
      assert z[16..] == y[16..][..16 * (n - 1)];
    }
  }

  method StoreTag(mac: array<u8>, w0: u64, w1: u64)
    requires mac.Length == 16
    modifies mac
    ensures LeNat(mac[..]) == w0 + w1 * TWO_64
  {
    hide LeNat, LeBytes;
    StoreU64(mac, 0, w0);
    StoreU64(mac, 8, w1);
    StoredWord(w0);
    StoredWord(w1);
    assert mac[..8] == mac[0..8];
    ConcatWord(mac[0..8], mac[8..16]);
    assert mac[..] == mac[0..8] + mac[8..16];
  }

  // The number that the code adds to the pad for a key and a message, however the message was split.
  function FinalNumber(key: seq<u8>, msg: seq<u8>): int
    requires |key| == 32
  {
    var r, n := KeyPart(key), |msg| / 16;
    Value(FullCarry(Closed(Steps(Limbs(0, 0, 0), r, msg, n, TWO_40), r, msg[16 * n..])))
  }

  // It is the RFC's accumulator, but reduced only to below 2^130.
  lemma FinalCorrect(key: seq<u8>, msg: seq<u8>)
    requires |key| == 32
    ensures 0 <= FinalNumber(key, msg) < TWO_130
    ensures FinalNumber(key, msg) % P == PolyAcc(ClampedKey(key), 0, msg)
  {
    hide Steps, KeyPart, PolyAcc, Value, FullCarry, ClampedKey, Closed;
    var r, n := KeyPart(key), |msg| / 16;
    var a := Steps(Limbs(0, 0, 0), r, msg, n, TWO_40);
    ClampKey(key);
    ZeroLimbs();
    StepsCorrect(Limbs(0, 0, 0), r, msg, n);
    ClosedCorrect(a, r, msg[16 * n..]);
    FullCarryCorrect(Closed(a, r, msg[16 * n..]));
    assert msg == msg[..16 * n] + msg[16 * n..];
    PolyAccConcat(Value(r), 0, msg[..16 * n], msg[16 * n..], n);
  }

  lemma FinalTag(key: seq<u8>, msg: seq<u8>)
    requires |key| == 32
    ensures (FinalNumber(key, msg) + LeNat(key[16..])) % TWO_128 == RfcTag(key, msg) <==> FinalNumber(key, msg) < P
  {
    hide FinalNumber, ClampedKey, PolyAcc, LeNat;
    FinalCorrect(key, msg);
    TagCorrectness(FinalNumber(key, msg), PolyAcc(ClampedKey(key), 0, msg), LeNat(key[16..]));
  }

  // The five values from p on: the RFC's accumulator is below 5, and the tag is 5 less than the RFC's.
  lemma FiveValues(key: seq<u8>, msg: seq<u8>)
    requires |key| == 32 && FinalNumber(key, msg) >= P
    ensures 0 <= PolyAcc(ClampedKey(key), 0, msg) < 5
    ensures (FinalNumber(key, msg) + LeNat(key[16..])) % TWO_128
            == (RfcTag(key, msg) - 5) % TWO_128
  {
    hide FinalNumber, ClampedKey, PolyAcc, LeNat;
    FinalCorrect(key, msg);
    var number, acc, pad := FinalNumber(key, msg), PolyAcc(ClampedKey(key), 0, msg), LeNat(key[16..]);
    DivModUnique(number, P, 1, number - P);
    var tag, q := RfcTag(key, msg), (acc + pad) / TWO_128;
    ModAddMultiple(tag - 5, q + 4, TWO_128);
    assert number + pad == tag - 5 + (q + 4) * TWO_128;
  }

  lemma FinalState(key: seq<u8>, done: seq<u8>, tail: seq<u8>, n: nat)
    requires |key| == 32 && |done| == 16 * n && |tail| < 16
    ensures FinalNumber(key, done + tail) ==
            Value(FullCarry(Closed(Steps(Limbs(0, 0, 0), KeyPart(key), done, n, TWO_40), KeyPart(key), tail)))
  {
    hide Steps, KeyPart, Value, FullCarry, Closed;
    var msg := done + tail;
    assert |msg| / 16 == n;
    assert msg[16 * n..] == tail;
    assert msg[..16 * n] == done;
    StepsPrefix(Limbs(0, 0, 0), KeyPart(key), msg, n, TWO_40);
  }

  lemma StepsUnfold(a: Limbs, r: Limbs, input: seq<u8>, n: nat, hibit: int)
    requires 0 < n && 16 * n <= |input|
    ensures Steps(a, r, input, n, hibit) ==
            Steps(BlockStep(a, r, LoadU64(input, 0), LoadU64(input, 8), hibit), r, input[16..], n - 1, hibit)
  {
  }

  lemma StepsDone(a: Limbs, r: Limbs, input: seq<u8>, hibit: int)
    ensures Steps(a, r, input, 0, hibit) == a
  {
  }

  lemma ZeroLimbs()
    ensures Value(Limbs(0, 0, 0)) % P == 0
  {
    DivModUnique(0, P, 0, 0);
  }

  // The clamped key in limbs, as `poly1305_init` computes it.
  function KeyPart(key: seq<u8>): Limbs
    requires |key| == 32
  {
    var t0: u64, t1: u64 := LoadU64(key, 0), LoadU64(key, 8);
    Limbs(And(t0, 0xFFC0FFFFFFF), And(t0 / TWO_44 + t1 as int * 0x100000 % TWO_64, 0xFFFFFC0FFFF),
          And(t1 / 0x1000000, 0x00FFFFFFC0F))
  }

  lemma ClampKey(key: seq<u8>)
    requires |key| == 32
    ensures KeyLimbs(KeyPart(key)) && Value(KeyPart(key)) == ClampedKey(key)
    ensures LoadU64(key, 16) + LoadU64(key, 24) * TWO_64 == LeNat(key[16..])
  {
    hide LeNat, And, Value, LoadU64;
    KeyWords(key);
    ClampLimbs(LoadU64(key, 0), LoadU64(key, 8));
  }

  lemma KeyWords(key: seq<u8>)
    requires |key| == 32
    ensures LoadU64(key, 0) + LoadU64(key, 8) * TWO_64 == LeNat(key[..16])
    ensures LoadU64(key, 16) + LoadU64(key, 24) * TWO_64 == LeNat(key[16..])
  {
    hide LeNat;
    BlockWords(key[..16]);
    BlockWords(key[16..]);
    assert key[..16][0..8] == key[0..8] && key[..16][8..16] == key[8..16];
    assert key[16..][0..8] == key[16..24] && key[16..][8..16] == key[24..32];
  }

  // A key with r = 2 and a zero pad, and one block that drives the accumulator to p + 1.
  const BAD_KEY: seq<u8> := [2] + seq(31, _ => 0)
  const BAD_MESSAGE: seq<u8> := [0xFE] + seq(15, _ => 0xFF)

  lemma {:induction false} LeNatOnes(n: nat)
    ensures LeNat(seq(n, _ => 0xFF)) == Pow256(n) - 1
  {
    if n > 0 {
      LeNatOnes(n - 1);
      var z: seq<u8> := seq(n, _ => 0xFF);
      assert z[1..] == seq(n - 1, _ => 0xFF);
    }
  }

  lemma BadWords()
    ensures LoadU64(BAD_KEY, 0) == 2 && LoadU64(BAD_KEY, 8) == 0
    ensures LoadU64(BAD_MESSAGE, 0) == 0xFFFF_FFFF_FFFF_FFFE && LoadU64(BAD_MESSAGE, 8) == 0xFFFF_FFFF_FFFF_FFFF
  {
    Pow256Offsets();
    var k, m := BAD_KEY[0..8], BAD_MESSAGE[0..8];
    assert k[1..] == seq(7, _ => 0) && m[1..] == seq(7, _ => 0xFF);
    LeNatZeros(7);
    LeNatOnes(7);
    assert Pow256(8) == 0x100 * Pow256(7);
    assert LeNat(k) == 2 && LeNat(m) == 0xFE + 0x100 * (Pow256(7) - 1);
    assert BAD_KEY[8..16] == seq(8, _ => 0) && BAD_MESSAGE[8..16] == seq(8, _ => 0xFF);
    LeNatZeros(8);
    LeNatOnes(8);
  }

  lemma BadKeyPart()
    ensures KeyPart(BAD_KEY) == Limbs(2, 0, 0)
  {
    BadWords();
    hide LoadU64, LeNat;
    assert And(2, 0xFFC0FFFFFFF) == 2;
    assert And(0, 0xFFFFFC0FFFF) == 0 && And(0, 0x00FFFFFFC0F) == 0;
  }

  lemma BadBlock()
    ensures BlockStep(Limbs(0, 0, 0), Limbs(2, 0, 0), 0xFFFF_FFFF_FFFF_FFFE, 0xFFFF_FFFF_FFFF_FFFF, TWO_40) ==
            Limbs(0xFFFFFFFFFFC, 0xFFFFFFFFFFF, 0x3FFFFFFFFFF)
  {
    assert Lo44(0xFFFF_FFFF_FFFF_FFFE) == 0xFFFFFFFFFFE;
    assert Middle(0xFFFF_FFFF_FFFF_FFFE, 0xFFFF_FFFF_FFFF_FFFF) == 0xFFFFFFFFFFF;
    BadProducts();
    var d0, d1, d2 := 0x1FFFFFFFFFFC, 0x1FFFFFFFFFFF, 0x3FFFFFFFFFF;
    assert Lo44(d0) == 0xFFFFFFFFFFC && Hi44(d0) == 1;
    assert Lo44(d1) == 0xFFFFFFFFFFF && Hi44(d1) == 1;
    assert Lo42(d2) == d2 && Hi42(d2) == 0;
    assert Lo44(0xFFFFFFFFFFC) == 0xFFFFFFFFFFC && Hi44(0xFFFFFFFFFFC) == 0;
    hide Lo44, Hi44, Lo42, Hi42, Middle, Mul128;
  }

  lemma BadProducts()
    ensures Mul128(0xFFFFFFFFFFE, 2) == 0x1FFFFFFFFFFC && Mul128(0xFFFFFFFFFFF, 2) == 0x1FFFFFFFFFFE
    ensures Mul128(0x1FFFFFFFFFF, 2) == 0x3FFFFFFFFFE
    ensures Mul128(0xFFFFFFFFFFE, 0) == 0 && Mul128(0xFFFFFFFFFFF, 0) == 0 && Mul128(0x1FFFFFFFFFF, 0) == 0
  {
  }

  lemma FullCarryInPlace(a: Limbs)
    requires 0 <= a.l0 < TWO_44 && 0 <= a.l1 < TWO_44 && 0 <= a.l2 < TWO_42
    ensures FullCarry(a) == a
  {
    assert Lo44(a.l0) == a.l0 && Hi44(a.l0) == 0 && Lo44(a.l1) == a.l1 && Hi44(a.l1) == 0;
    assert Lo42(a.l2) == a.l2 && Hi42(a.l2) == 0;
    hide Lo44, Hi44, Lo42, Hi42;
  }

  lemma ClosedEmpty(a: Limbs, r: Limbs)
    ensures Closed(a, r, []) == a
  {
  }

  lemma BadRun(key: seq<u8>, msg: seq<u8>)
    requires |key| == 32 && |msg| == 16 && KeyPart(key) == Limbs(2, 0, 0)
    requires LoadU64(msg, 0) == 0xFFFF_FFFF_FFFF_FFFE && LoadU64(msg, 8) == 0xFFFF_FFFF_FFFF_FFFF
    ensures FinalNumber(key, msg) == P + 1
  {
    hide Steps, BlockStep, LoadU64, FullCarry, KeyPart, FinalNumber, Closed;
    var a := Limbs(0xFFFFFFFFFFC, 0xFFFFFFFFFFF, 0x3FFFFFFFFFF);
    BadBlock();
    StepsUnfold(Limbs(0, 0, 0), Limbs(2, 0, 0), msg, 1, TWO_40);
    StepsDone(a, Limbs(2, 0, 0), msg[16..], TWO_40);
    FinalState(key, msg, [], 1);
    assert msg + [] == msg;
    ClosedEmpty(a, Limbs(2, 0, 0));
    FullCarryInPlace(a);
  }

  // The final subtraction is needed and does not happen: the tag differs from the RFC's.
  lemma WrongTag()
    ensures |BAD_KEY| == 32 && FinalNumber(BAD_KEY, BAD_MESSAGE) == P + 1
    ensures (FinalNumber(BAD_KEY, BAD_MESSAGE) + LeNat(BAD_KEY[16..])) % TWO_128 != RfcTag(BAD_KEY, BAD_MESSAGE)
  {
    hide Steps, BlockStep, LoadU64, FullCarry, KeyPart, FinalNumber, Closed, LeNat, RfcTag;
    BadKeyPart();
    BadWords();
    BadRun(BAD_KEY, BAD_MESSAGE);
    FinalTag(BAD_KEY, BAD_MESSAGE);
  }
}
