/** The field of integers modulo p = 2^255 - 19, as plain arithmetic on residues. */
module Field25519 {
  import opened Words

  const P: int := 0x7FFFFFFFFFFFFFFFFFFFFFFFFFFFFFFFFFFFFFFFFFFFFFFFFFFFFFFFFFFFFFED

  function FAdd(x: int, y: int): int {
    (x + y) % P
  }

  function FSub(x: int, y: int): int {
    (x - y) % P
  }

  function FMul(x: int, y: int): int {
    (x * y) % P
  }

  function FPow(x: int, n: nat): int {
    if n == 0 then 1 else FMul(x, FPow(x, n - 1))
  }

  // x^(2^n) by n squarings.
  function FSquareN(x: int, n: nat): int
    decreases n
  {
    if n == 0 then x else FSquareN(FMul(x, x), n - 1)
  }

  ghost predicate IsResidue(x: int) {
    0 <= x < P
  }

  lemma FMulCommutes(x: int, y: int)
    ensures FMul(x, y) == FMul(y, x)
  {
  }

  lemma FMulAssociates(x: int, y: int, z: int)
    ensures FMul(FMul(x, y), z) == FMul(x, FMul(y, z))
  {
    var a, b := x * y, y * z;
    ModMul(a, z, P);
    ModMul(a % P, z, P);
    ModIdempotent(a);
    ModMul(x, b, P);
    ModMul(x, b % P, P);
    ModIdempotent(b);
    assert a * z == x * b;
  }

  lemma ModIdempotent(x: int)
    ensures x % P % P == x % P
  {
  }

  lemma FMulOne(x: int)
    requires IsResidue(x)
    ensures FMul(x, 1) == x && FMul(1, x) == x
  {
  }

  lemma FAddCommutes(x: int, y: int)
    ensures FAdd(x, y) == FAdd(y, x)
  {
  }

  lemma FDistribute(c: int, x: int, y: int)
    ensures FAdd(FMul(c, x), FMul(c, y)) == FMul(c, FAdd(x, y))
    ensures FSub(FMul(c, x), FMul(c, y)) == FMul(c, FSub(x, y))
  {
    var s, t := c * x, c * y;
    assert c * (x + y) == s + t && c * (x - y) == s - t;
    assert FMul(c, x) == s % P && FMul(c, y) == t % P;
    assert FMul(c, x + y) == (s + t) % P && FMul(c, x - y) == (s - t) % P;
    hide FMul;
    ModAdd(s, t, P);
    FMulMod(c, x + y);
    FMulMod(c, x - y);
  }

  lemma FMulMod(x: int, y: int)
    ensures FMul(x, y % P) == FMul(x, y) && FMul(x % P, y) == FMul(x, y)
  {
    ModMul(x, y, P);
    ModMul(x, y % P, P);
    ModMul(x % P, y, P);
    ModIdempotent(x);
    ModIdempotent(y);
  }

  // (cx)(dy) == (cd)(xy)
  lemma FMulInterchange(c: int, x: int, d: int, y: int)
    ensures FMul(FMul(c, x), FMul(d, y)) == FMul(FMul(c, d), FMul(x, y))
  {
    hide FMul;
    FMulAssociates(c, x, FMul(d, y));
    FMulAssociates(x, d, y);
    FMulCommutes(x, d);
    FMulAssociates(d, x, y);
    FMulAssociates(c, d, FMul(x, y));
  }

  lemma {:induction false} FPowProduct(x: int, y: int, n: nat)
    ensures FPow(FMul(x, y), n) == FMul(FPow(x, n), FPow(y, n))
  {
    if n == 0 {
      FMulOne(1);
    } else {
      FPowProduct(x, y, n - 1);
      hide FMul;
      FMulInterchange(x, y, FPow(x, n - 1), FPow(y, n - 1));
    }
  }

  // (x - y)^2 == (y - x)^2
  lemma FSubSquareSymmetric(x: int, y: int)
    ensures FMul(FSub(x, y), FSub(x, y)) == FMul(FSub(y, x), FSub(y, x))
  {
    ModMul(x - y, x - y, P);
    ModMul(y - x, y - x, P);
    assert (x - y) * (x - y) == (y - x) * (y - x);
  }

  lemma {:induction false} FPowResidue(x: int, n: nat)
    ensures IsResidue(FPow(x, n))
  {
  }

  lemma {:induction false} FPowAdd(x: int, m: nat, n: nat)
    ensures FPow(x, m + n) == FMul(FPow(x, m), FPow(x, n))
  {
    if m == 0 {
      FPowResidue(x, n);
      FMulOne(FPow(x, n));
    } else {
      FPowAdd(x, m - 1, n);
      hide FMul;
      FMulAssociates(x, FPow(x, m - 1), FPow(x, n));
      assert FPow(x, m + n) == FMul(x, FPow(x, m - 1 + n));
    }
  }

  lemma {:induction false} FPowMul(x: int, m: nat, n: nat, mn: nat)
    requires mn == m * n
    ensures FPow(FPow(x, m), n) == FPow(x, mn)
  {
    if n > 0 {
      assert mn - m == m * (n - 1);
      assert mn >= m by {
        MulAtLeastZero(m, n - 1);
      }
      FPowMul(x, m, n - 1, mn - m);
      FPowAdd(x, m, mn - m);
      hide FMul;
    }
  }

  lemma MulAtLeastZero(m: nat, n: nat)
    ensures m * n >= 0
  {
  }

  lemma {:induction false} FSquareNIsPower(x: int, n: nat)
    requires IsResidue(x)
    ensures FSquareN(x, n) == FPow(x, Pow2(n))
    decreases n
  {
    if n == 0 {
      FMulOne(x);
      assert FPow(x, 1) == FMul(x, FPow(x, 0));
    } else {
      FMulOne(x);
      assert FPow(x, 1) == FMul(x, FPow(x, 0));
      assert FPow(x, 2) == FMul(x, FPow(x, 1));
      FSquareNIsPower(FMul(x, x), n - 1);
      FPowMul(x, 2, Pow2(n - 1), Pow2(n));
    }
  }
}

/** Field elements in five 51-bit limbs held in 64-bit words: hc/core/hc/crypto/curve25519.c.

    Every operation is stated twice over the same call: its result limbs stay below a bound that the next
    operation can take, and the residue they denote is the field operation on the residues of the inputs.
    Outputs may alias inputs exactly where the C code allows it, so contracts speak of the `old` inputs. */
module Curve25519 {
  import opened Words
  import opened Field25519

  function Val5(a0: int, a1: int, a2: int, a3: int, a4: int): int {
    a0 + a1 * 0x8_0000_0000_0000 +
    a2 * 0x40_0000_0000_0000_0000_0000_0000 +
    a3 * 0x200_0000_0000_0000_0000_0000_0000_0000_0000_0000 +
    a4 * 0x1000_0000_0000_0000_0000_0000_0000_0000_0000_0000_0000_0000_0000
  }

  ghost function Val(a: array<u64>): int
    requires a.Length == 5
    reads a
  {
    Val5(a[0], a[1], a[2], a[3], a[4])
  }

  ghost function Elem(a: array<u64>): int
    requires a.Length == 5
    reads a
  {
    Val(a) % P
  }

  // All limbs below n.
  ghost predicate Below(a: array<u64>, n: int)
    reads a
  {
    a.Length == 5 && a[0] < n && a[1] < n && a[2] < n && a[3] < n && a[4] < n
  }

  // The bound every multiplication establishes: 2^51, and 2^51 + 2^13 for the second limb.
  ghost predicate Tight(a: array<u64>)
    reads a
  {
    a.Length == 5 && a[0] < 0x8000000000000 && a[1] < 0x8000000002000 && a[2] < 0x8000000000000 &&
    a[3] < 0x8000000000000 && a[4] < 0x8000000000000
  }

  // `x & 0x7FFFFFFFFFFFF` and `x >> 51`.

  function Lo51(x: int): int {
    x % TWO_51
  }

  function Hi51(x: int): int {
    x / TWO_51
  }

  lemma SplitAt51(x: int)
    ensures x == Lo51(x) + TWO_51 * Hi51(x) && 0 <= Lo51(x) < TWO_51
    ensures x >= 0 ==> Hi51(x) >= 0
  {
  }

  // Multiplying out: column sums, with the columns above 2^255 folded back by 19.

  lemma Row(c: int, a0: int, a1: int, a2: int, a3: int, a4: int)
    ensures Mul128(c, Val5(a0, a1, a2, a3, a4)) ==
            Val5(Mul128(c, a0), Mul128(c, a1), Mul128(c, a2), Mul128(c, a3), Mul128(c, a4))
    ensures Mul128(Val5(a0, a1, a2, a3, a4), c) ==
            Val5(Mul128(a0, c), Mul128(a1, c), Mul128(a2, c), Mul128(a3, c), Mul128(a4, c))
  {
  }

  lemma FoldColumns(p00: int, p01: int, p02: int, p03: int, p04: int,
             p10: int, p11: int, p12: int, p13: int, p14: int,
             p20: int, p21: int, p22: int, p23: int, p24: int,
             p30: int, p31: int, p32: int, p33: int, p34: int,
             p40: int, p41: int, p42: int, p43: int, p44: int)
    ensures Val5(Val5(p00, p01, p02, p03, p04), 
                 Val5(p10, p11, p12, p13, p14), 
                 Val5(p20, p21, p22, p23, p24), 
                 Val5(p30, p31, p32, p33, p34), 
                 Val5(p40, p41, p42, p43, p44)) ==
            Val5(
              p00 + 19 * (p14 + p23 + p32 + p41),
              p01 + p10 + 19 * (p24 + p33 + p42),
              p02 + p11 + p20 + 19 * (p34 + p43),
              p03 + p12 + p21 + p30 + 19 * (p44),
              p04 + p13 + p22 + p31 + p40)
            + P * Val5(p14 + p23 + p32 + p41, p24 + p33 + p42, p34 + p43, p44, 0)
  {
  }

  lemma ProductColumns(a0: int, a1: int, a2: int, a3: int, a4: int,
                       b0: int, b1: int, b2: int, b3: int, b4: int)
    ensures Mul128(Val5(a0, a1, a2, a3, a4), Val5(b0, b1, b2, b3, b4)) ==
            Val5(
              Mul128(a0, b0) + 19 * (Mul128(a1, b4) + Mul128(a2, b3) + Mul128(a3, b2) + Mul128(a4, b1)),
              Mul128(a0, b1) + Mul128(a1, b0) + 19 * (Mul128(a2, b4) + Mul128(a3, b3) + Mul128(a4, b2)),
              Mul128(a0, b2) + Mul128(a1, b1) + Mul128(a2, b0) + 19 * (Mul128(a3, b4) + Mul128(a4, b3)),
              Mul128(a0, b3) + Mul128(a1, b2) + Mul128(a2, b1) + Mul128(a3, b0) + 19 * (Mul128(a4, b4)),
              Mul128(a0, b4) + Mul128(a1, b3) + Mul128(a2, b2) + Mul128(a3, b1) + Mul128(a4, b0))
            + P * Val5(Mul128(a1, b4) + Mul128(a2, b3) + Mul128(a3, b2) + Mul128(a4, b1),
                       Mul128(a2, b4) + Mul128(a3, b3) + Mul128(a4, b2), Mul128(a3, b4) + Mul128(a4, b3),
                         Mul128(a4, b4), 0)
  {
    hide *;
    Row(Val5(b0, b1, b2, b3, b4), a0, a1, a2, a3, a4);
    Row(a0, b0, b1, b2, b3, b4);
    Row(a1, b0, b1, b2, b3, b4);
    Row(a2, b0, b1, b2, b3, b4);
    Row(a3, b0, b1, b2, b3, b4);
    Row(a4, b0, b1, b2, b3, b4);
    FoldColumns(Mul128(a0, b0), Mul128(a0, b1), Mul128(a0, b2), Mul128(a0, b3), Mul128(a0, b4),
                Mul128(a1, b0), Mul128(a1, b1), Mul128(a1, b2), Mul128(a1, b3), Mul128(a1, b4),
                Mul128(a2, b0), Mul128(a2, b1), Mul128(a2, b2), Mul128(a2, b3), Mul128(a2, b4),
                Mul128(a3, b0), Mul128(a3, b1), Mul128(a3, b2), Mul128(a3, b3), Mul128(a3, b4),
                Mul128(a4, b0), Mul128(a4, b1), Mul128(a4, b2), Mul128(a4, b3), Mul128(a4, b4));
  }

  ghost predicate Loose5(a0: int, a1: int, a2: int, a3: int, a4: int) {
    0 <= a0 < 0x40000000000000 && 0 <= a1 < 0x40000000000000 && 0 <= a2 < 0x40000000000000 &&
    0 <= a3 < 0x40000000000000 && 0 <= a4 < 0x40000000000000
  }

  // Column sums that the carry chain can absorb: 77 * 2^108 at the bottom, 5 * 2^108 at the top.
  ghost predicate ColumnBounds(t0: int, t1: int, t2: int, t3: int, t4: int) {
    0 <= t0 <= 0x4D000000000000000000000000000 && 0 <= t1 <= 0x3B000000000000000000000000000 &&
    0 <= t2 <= 0x29000000000000000000000000000 && 0 <= t3 <= 0x17000000000000000000000000000 &&
    0 <= t4 <= 0x5000000000000000000000000000
  }

  lemma LimbProduct(x: int, y: int)
    requires 0 <= x < TWO_54 && 0 <= y < TWO_54
    ensures 0 <= Mul128(x, y) <= TWO_108
    ensures Mul128(x * 19, y) == 19 * Mul128(x, y) && Mul128(x, y * 19) == 19 * Mul128(x, y)
    ensures Mul128(x * 2, y) == 2 * Mul128(x, y)
    ensures Mul128(x * 19 * 2, y) == 38 * Mul128(x, y) && Mul128(x * 2 * 19, y) == 38 * Mul128(x, y)
    ensures Mul128(x, y) == Mul128(y, x)
  {
    Mul128Bound(x, y, TWO_54, TWO_54);
  }

  lemma AllLimbProducts(a0: int, a1: int, a2: int, a3: int, a4: int, b0: int, b1: int, b2: int, b3: int, b4: int)
    requires Loose5(a0, a1, a2, a3, a4) && Loose5(b0, b1, b2, b3, b4)
    ensures 0 <= Mul128(a0, b0) <= TWO_108 && Mul128(a0, b0) == Mul128(b0, a0)
    ensures 0 <= Mul128(a0, b1) <= TWO_108 && Mul128(a0, b1) == Mul128(b1, a0)
    ensures 0 <= Mul128(a0, b2) <= TWO_108 && Mul128(a0, b2) == Mul128(b2, a0)
    ensures 0 <= Mul128(a0, b3) <= TWO_108 && Mul128(a0, b3) == Mul128(b3, a0)
    ensures 0 <= Mul128(a0, b4) <= TWO_108 && Mul128(a0, b4) == Mul128(b4, a0)
    ensures 0 <= Mul128(a1, b0) <= TWO_108 && Mul128(a1, b0) == Mul128(b0, a1)
    ensures 0 <= Mul128(a1, b1) <= TWO_108 && Mul128(a1, b1) == Mul128(b1, a1)
    ensures 0 <= Mul128(a1, b2) <= TWO_108 && Mul128(a1, b2) == Mul128(b2, a1)
    ensures 0 <= Mul128(a1, b3) <= TWO_108 && Mul128(a1, b3) == Mul128(b3, a1)
    ensures 0 <= Mul128(a1, b4) <= TWO_108 && Mul128(a1, b4) == Mul128(b4, a1)
    ensures 0 <= Mul128(a2, b0) <= TWO_108 && Mul128(a2, b0) == Mul128(b0, a2)
    ensures 0 <= Mul128(a2, b1) <= TWO_108 && Mul128(a2, b1) == Mul128(b1, a2)
    ensures 0 <= Mul128(a2, b2) <= TWO_108 && Mul128(a2, b2) == Mul128(b2, a2)
    ensures 0 <= Mul128(a2, b3) <= TWO_108 && Mul128(a2, b3) == Mul128(b3, a2)
    ensures 0 <= Mul128(a2, b4) <= TWO_108 && Mul128(a2, b4) == Mul128(b4, a2)
    ensures 0 <= Mul128(a3, b0) <= TWO_108 && Mul128(a3, b0) == Mul128(b0, a3)
    ensures 0 <= Mul128(a3, b1) <= TWO_108 && Mul128(a3, b1) == Mul128(b1, a3)
    ensures 0 <= Mul128(a3, b2) <= TWO_108 && Mul128(a3, b2) == Mul128(b2, a3)
    ensures 0 <= Mul128(a3, b3) <= TWO_108 && Mul128(a3, b3) == Mul128(b3, a3)
    ensures 0 <= Mul128(a3, b4) <= TWO_108 && Mul128(a3, b4) == Mul128(b4, a3)
    ensures 0 <= Mul128(a4, b0) <= TWO_108 && Mul128(a4, b0) == Mul128(b0, a4)
    ensures 0 <= Mul128(a4, b1) <= TWO_108 && Mul128(a4, b1) == Mul128(b1, a4)
    ensures 0 <= Mul128(a4, b2) <= TWO_108 && Mul128(a4, b2) == Mul128(b2, a4)
    ensures 0 <= Mul128(a4, b3) <= TWO_108 && Mul128(a4, b3) == Mul128(b3, a4)
    ensures 0 <= Mul128(a4, b4) <= TWO_108 && Mul128(a4, b4) == Mul128(b4, a4)
  {
    LimbProduct(a0, b0);
    LimbProduct(a0, b1);
    LimbProduct(a0, b2);
    LimbProduct(a0, b3);
    LimbProduct(a0, b4);
    LimbProduct(a1, b0);
    LimbProduct(a1, b1);
    LimbProduct(a1, b2);
    LimbProduct(a1, b3);
    LimbProduct(a1, b4);
    LimbProduct(a2, b0);
    LimbProduct(a2, b1);
    LimbProduct(a2, b2);
    LimbProduct(a2, b3);
    LimbProduct(a2, b4);
    LimbProduct(a3, b0);
    LimbProduct(a3, b1);
    LimbProduct(a3, b2);
    LimbProduct(a3, b3);
    LimbProduct(a3, b4);
    LimbProduct(a4, b0);
    LimbProduct(a4, b1);
    LimbProduct(a4, b2);
    LimbProduct(a4, b3);
    LimbProduct(a4, b4);
  }

  lemma ProductResidue(x: int, y: int, t: int, k: int)
    requires Mul128(x, y) == t + P * k
    ensures t % P == FMul(x % P, y % P)
  {
    ModMul(x, y, P);
    ModAddMultiple(t, k, P);
    assert P * k == k * P;
  }

  // The five accumulators of `curve25519_mul`.
  lemma MulColumns(s0: int, s1: int, s2: int, s3: int, s4: int, r0: int, r1: int, r2: int, r3: int, r4: int)
    requires Loose5(s0, s1, s2, s3, s4) && Loose5(r0, r1, r2, r3, r4)
    ensures var t0, t1, t2, t3, t4 :=
              Mul128(r0, s0) + Mul128(r4 * 19, s1) + Mul128(r1 * 19, s4) + Mul128(r2 * 19, s3) + Mul128(r3 * 19, s2),
              Mul128(r0, s1) + Mul128(r1, s0) + Mul128(r4 * 19, s2) + Mul128(r2 * 19, s4) + Mul128(r3 * 19, s3),
              Mul128(r0, s2) + Mul128(r2, s0) + Mul128(r1, s1) + Mul128(r4 * 19, s3) + Mul128(r3 * 19, s4),
              Mul128(r0, s3) + Mul128(r3, s0) + Mul128(r1, s2) + Mul128(r2, s1) + Mul128(r4 * 19, s4),
              Mul128(r0, s4) + Mul128(r4, s0) + Mul128(r3, s1) + Mul128(r1, s3) + Mul128(r2, s2);
            ColumnBounds(t0, t1, t2, t3, t4) &&
            Val5(t0, t1, t2, t3, t4) % P == FMul(Val5(s0, s1, s2, s3, s4) % P, Val5(r0, r1, r2, r3, r4) % P)
  {
    hide Val5, FMul, Mul128;
    AllLimbProducts(s0, s1, s2, s3, s4, r0, r1, r2, r3, r4);
    LimbProduct(r4, s1);
    LimbProduct(r1, s4);
    LimbProduct(r2, s3);
    LimbProduct(r3, s2);
    LimbProduct(r4, s2);
    LimbProduct(r2, s4);
    LimbProduct(r3, s3);
    LimbProduct(r4, s3);
    LimbProduct(r3, s4);
    LimbProduct(r4, s4);
    ProductColumns(s0, s1, s2, s3, s4, r0, r1, r2, r3, r4);
    ProductResidue(Val5(s0, s1, s2, s3, s4), Val5(r0, r1, r2, r3, r4),
                   Val5(Mul128(r0, s0) + Mul128(r4 * 19, s1) + Mul128(r1 * 19, s4) + Mul128(r2 * 19, s3) +
                        Mul128(r3 * 19, s2),
                        Mul128(r0, s1) + Mul128(r1, s0) + Mul128(r4 * 19, s2) + Mul128(r2 * 19, s4) +
                          Mul128(r3 * 19, s3),
                        Mul128(r0, s2) + Mul128(r2, s0) + Mul128(r1, s1) + Mul128(r4 * 19, s3) + Mul128(r3 * 19, s4),
                        Mul128(r0, s3) + Mul128(r3, s0) + Mul128(r1, s2) + Mul128(r2, s1) + Mul128(r4 * 19, s4),
                        Mul128(r0, s4) + Mul128(r4, s0) + Mul128(r3, s1) + Mul128(r1, s3) + Mul128(r2, s2)),
                   Val5(Mul128(s1, r4) + Mul128(s2, r3) + Mul128(s3, r2) + Mul128(s4, r1),
                        Mul128(s2, r4) + Mul128(s3, r3) + Mul128(s4, r2), Mul128(s3, r4) + Mul128(s4, r3),
                          Mul128(s4, r4), 0));
  }

  // The five accumulators of `curve25519_squareN`.
  lemma SquareColumns(r0: int, r1: int, r2: int, r3: int, r4: int)
    requires Loose5(r0, r1, r2, r3, r4)
    ensures var t0, t1, t2, t3, t4 :=
              Mul128(r0, r0) + Mul128(r4 * 19 * 2, r1) + Mul128(r2 * 2 * 19, r3),
              Mul128(r0 * 2, r1) + Mul128(r4 * 19 * 2, r2) + Mul128(r3, r3 * 19),
              Mul128(r0 * 2, r2) + Mul128(r1, r1) + Mul128(r4 * 19 * 2, r3),
              Mul128(r0 * 2, r3) + Mul128(r1 * 2, r2) + Mul128(r4, r4 * 19),
              Mul128(r0 * 2, r4) + Mul128(r1 * 2, r3) + Mul128(r2, r2);
            ColumnBounds(t0, t1, t2, t3, t4) &&
            Val5(t0, t1, t2, t3, t4) % P == FMul(Val5(r0, r1, r2, r3, r4) % P, Val5(r0, r1, r2, r3, r4) % P)
  {
    hide Val5, FMul, Mul128;
    AllLimbProducts(r0, r1, r2, r3, r4, r0, r1, r2, r3, r4);
    LimbProduct(r4, r1);
    LimbProduct(r2, r3);
    LimbProduct(r4, r2);
    LimbProduct(r3, r3);
    LimbProduct(r4, r3);
    LimbProduct(r4, r4);
    LimbProduct(r0, r1);
    LimbProduct(r0, r2);
    LimbProduct(r0, r3);
    LimbProduct(r0, r4);
    LimbProduct(r1, r2);
    LimbProduct(r1, r3);
    ProductColumns(r0, r1, r2, r3, r4, r0, r1, r2, r3, r4);
    ProductResidue(Val5(r0, r1, r2, r3, r4), Val5(r0, r1, r2, r3, r4),
                   Val5(Mul128(r0, r0) + Mul128(r4 * 19 * 2, r1) + Mul128(r2 * 2 * 19, r3),
                        Mul128(r0 * 2, r1) + Mul128(r4 * 19 * 2, r2) + Mul128(r3, r3 * 19),
                        Mul128(r0 * 2, r2) + Mul128(r1, r1) + Mul128(r4 * 19 * 2, r3),
                        Mul128(r0 * 2, r3) + Mul128(r1 * 2, r2) + Mul128(r4, r4 * 19),
                        Mul128(r0 * 2, r4) + Mul128(r1 * 2, r3) + Mul128(r2, r2)),
                   Val5(Mul128(r1, r4) + Mul128(r2, r3) + Mul128(r3, r2) + Mul128(r4, r1),
                        Mul128(r2, r4) + Mul128(r3, r3) + Mul128(r4, r2), Mul128(r3, r4) + Mul128(r4, r3),
                          Mul128(r4, r4), 0));
  }

  lemma CarryIdentity(t0: int, t1: int, t2: int, t3: int, t4: int, l0: int, l1: int, l2: int, l3: int, l4: int,
                      h0: int, h1: int, h2: int, h3: int, h4: int, l5: int, h5: int)
    requires t0 == l0 + TWO_51 * h0 && t1 + h0 == l1 + TWO_51 * h1
    requires t2 + h1 == l2 + TWO_51 * h2 && t3 + h2 == l3 + TWO_51 * h3
    requires t4 + h3 == l4 + TWO_51 * h4 && l0 + h4 * 19 == l5 + TWO_51 * h5
    ensures Val5(t0, t1, t2, t3, t4) == Val5(l5, l1 + h5, l2, l3, l4) + h4 * P
  {
  }

  // The carry chain shared by `curve25519_mul` and `curve25519_squareN`: no cast to 64 bits drops a bit, and
  // the limbs that come out denote the accumulators minus a multiple of p.
  lemma CarryChain(t0: int, t1: int, t2: int, t3: int, t4: int)
    requires ColumnBounds(t0, t1, t2, t3, t4)
    ensures var u1 := t1 + Hi51(t0);
            var u2 := t2 + Hi51(u1);
            var u3 := t3 + Hi51(u2);
            var u4 := t4 + Hi51(u3);
            var w0 := Lo51(t0) + Hi51(u4) * 19;
            var w1 := Lo51(u1) + Hi51(w0);
            0 <= Hi51(t0) < TWO_64 && 0 <= Hi51(u1) < TWO_64 &&
            0 <= Hi51(u2) < TWO_64 && 0 <= Hi51(u3) < TWO_64 &&
            0 <= Hi51(u4) < TWO_60 && 0 <= u1 < TWO_115 && 0 <= u2 < TWO_115 &&
            0 <= u3 < TWO_115 && 0 <= u4 < TWO_115 &&
            0 <= w0 < TWO_64 && 0 <= w1 < 0x8000000002000 && 0 <= Hi51(w0) < 0x2000 &&
            0 <= Lo51(t0) < TWO_51 && 0 <= Lo51(u1) < TWO_51 && 0 <= Lo51(u2) < TWO_51 &&
            0 <= Lo51(u3) < TWO_51 && 0 <= Lo51(u4) < TWO_51 && 0 <= Lo51(w0) < TWO_51 &&
            Val5(Lo51(w0), w1, Lo51(u2), Lo51(u3), Lo51(u4)) % P == Val5(t0, t1, t2, t3, t4) % P
  {
    hide Lo51, Hi51, Val5;
    var u1 := t1 + Hi51(t0);
    var u2 := t2 + Hi51(u1);
    var u3 := t3 + Hi51(u2);
    var u4 := t4 + Hi51(u3);
    var w0 := Lo51(t0) + Hi51(u4) * 19;
    SplitAt51(t0);
    SplitAt51(u1);
    SplitAt51(u2);
    SplitAt51(u3);
    SplitAt51(u4);
    SplitAt51(w0);
    CarryIdentity(t0, t1, t2, t3, t4, Lo51(t0), Lo51(u1), Lo51(u2), Lo51(u3), Lo51(u4),
                  Hi51(t0), Hi51(u1), Hi51(u2), Hi51(u3), Hi51(u4), Lo51(w0), Hi51(w0));
    ModAddMultiple(Val5(Lo51(w0), Lo51(u1) + Hi51(w0), Lo51(u2), Lo51(u3), Lo51(u4)), Hi51(u4), P);
  }

  method Mul(out: array<u64>, a: array<u64>, b: array<u64>)
    requires out.Length == 5 && Below(a, TWO_54) && Below(b, TWO_54)
    modifies out
    ensures Tight(out)
    ensures Elem(out) == FMul(old(Elem(a)), old(Elem(b)))
  {
    hide Val5, FMul, Mul128, Lo51, Hi51;
    var r0, r1, r2, r3, r4 := b[0], b[1], b[2], b[3], b[4];
    var s0, s1, s2, s3, s4 := a[0], a[1], a[2], a[3], a[4];
    MulColumns(s0, s1, s2, s3, s4, r0, r1, r2, r3, r4);
    AllLimbProducts(s0, s1, s2, s3, s4, r0, r1, r2, r3, r4);

    var t0: u128 := Mul128(r0, s0);
    var t1: u128 := Mul128(r0, s1) + Mul128(r1, s0);
    var t2: u128 := Mul128(r0, s2) + Mul128(r2, s0) + Mul128(r1, s1);
    var t3: u128 := Mul128(r0, s3) + Mul128(r3, s0) + Mul128(r1, s2) + Mul128(r2, s1);
    var t4: u128 := Mul128(r0, s4) + Mul128(r4, s0) + Mul128(r3, s1) + Mul128(r1, s3) + Mul128(r2, s2);

    r4, r1, r2, r3 := r4 * 19, r1 * 19, r2 * 19, r3 * 19;

    t0 := t0 + (Mul128(r4, s1) + Mul128(r1, s4) + Mul128(r2, s3) + Mul128(r3, s2));
    t1 := t1 + (Mul128(r4, s2) + Mul128(r2, s4) + Mul128(r3, s3));
    t2 := t2 + (Mul128(r4, s3) + Mul128(r3, s4));
    t3 := t3 + (Mul128(r4, s4));
    CarryChain(t0, t1, t2, t3, t4);

    var c: u64;
    r0, c := Lo51(t0), Hi51(t0);
    t1 := t1 + c;
    r1, c := Lo51(t1), Hi51(t1);
    t2 := t2 + c;
    r2, c := Lo51(t2), Hi51(t2);
    t3 := t3 + c;
    r3, c := Lo51(t3), Hi51(t3);
    t4 := t4 + c;
    r4, c := Lo51(t4), Hi51(t4);

    r0 := r0 + c * 19;
    r1 := r1 + Hi51(r0);
    r0 := Lo51(r0);

    out[0], out[1], out[2], out[3], out[4] := r0, r1, r2, r3, r4;
  }

  method SquareN(out: array<u64>, a: array<u64>, n: u64)
    requires out.Length == 5 && Below(a, TWO_54) && n >= 1
    modifies out
    ensures Tight(out)
    ensures Elem(out) == FPow(old(Elem(a)), Pow2(n))
  {
    hide Val5, FMul, FPow, Pow2, Mul128, Lo51, Hi51;
    var r0, r1, r2, r3, r4 := a[0], a[1], a[2], a[3], a[4];
    ghost var x := Elem(a);
    var left := n;
    while true
      invariant left >= 1 && Loose5(r0, r1, r2, r3, r4)
      invariant FSquareN(Val5(r0, r1, r2, r3, r4) % P, left) == FSquareN(x, n)
      decreases left
    {
      SquareColumns(r0, r1, r2, r3, r4);
      var d0: u64, d1: u64, d2: u64, d419: u64 := r0 * 2, r1 * 2, r2 * 2 * 19, r4 * 19;
      var d4: u64 := d419 * 2;

      var t0: u128 := Mul128(r0, r0) + Mul128(d4, r1) + Mul128(d2, r3);
      var t1: u128 := Mul128(d0, r1) + Mul128(d4, r2) + Mul128(r3, r3 * 19);
      var t2: u128 := Mul128(d0, r2) + Mul128(r1, r1) + Mul128(d4, r3);
      var t3: u128 := Mul128(d0, r3) + Mul128(d1, r2) + Mul128(r4, d419);
      var t4: u128 := Mul128(d0, r4) + Mul128(d1, r3) + Mul128(r2, r2);
      CarryChain(t0, t1, t2, t3, t4);

      var c: u64;
      r0, c := Lo51(t0), Hi51(t0);
      t1 := t1 + c;
      r1, c := Lo51(t1), Hi51(t1);
      t2 := t2 + c;
      r2, c := Lo51(t2), Hi51(t2);
      t3 := t3 + c;
      r3, c := Lo51(t3), Hi51(t3);
      t4 := t4 + c;
      r4, c := Lo51(t4), Hi51(t4);
      r0 := r0 + c * 19;
      r1 := r1 + Hi51(r0);
      r0 := Lo51(r0);

      left := left - 1;
      if left == 0 {
        break;
      }
    }
    out[0], out[1], out[2], out[3], out[4] := r0, r1, r2, r3, r4;
    FSquareNIsPower(x, n);
  }

  // Additions and subtractions without carry.

  lemma SumResidue(x: int, y: int, k: int)
    ensures (x + y) % P == FAdd(x % P, y % P)
    ensures (x + k * P - y) % P == FSub(x % P, y % P)
  {
    ModAdd(x, y, P);
    ModAddMultiple(x - y, k, P);
  }

  lemma AddLimbs(a0: int, a1: int, a2: int, a3: int, a4: int, b0: int, b1: int, b2: int, b3: int, b4: int)
    ensures Val5(a0 + b0, a1 + b1, a2 + b2, a3 + b3, a4 + b4) % P ==
            FAdd(Val5(a0, a1, a2, a3, a4) % P, Val5(b0, b1, b2, b3, b4) % P)
  {
    SumResidue(Val5(a0, a1, a2, a3, a4), Val5(b0, b1, b2, b3, b4), 0);
  }

  lemma SubLimbs(a0: int, a1: int, a2: int, a3: int, a4: int, b0: int, b1: int, b2: int, b3: int, b4: int)
    ensures Val5(a0 + 0xFFFFFFFFFFFDA - b0, a1 + 0xFFFFFFFFFFFFE - b1, a2 + 0xFFFFFFFFFFFFE - b2,
                 a3 + 0xFFFFFFFFFFFFE - b3, a4 + 0xFFFFFFFFFFFFE - b4) % P
            == FSub(Val5(a0, a1, a2, a3, a4) % P, Val5(b0, b1, b2, b3, b4) % P)
  {
    SumResidue(Val5(a0, a1, a2, a3, a4), Val5(b0, b1, b2, b3, b4), 2);
  }

  method AddNoReduce(out: array<u64>, a: array<u64>, b: array<u64>)
    requires out.Length == 5 && Below(a, TWO_63) && Below(b, TWO_63)
    modifies out
    ensures forall i :: 0 <= i < 5 ==> out[i] == old(a[i] + b[i])
    ensures Elem(out) == FAdd(old(Elem(a)), old(Elem(b)))
  {
    hide FAdd, Val5;
    AddLimbs(a[0], a[1], a[2], a[3], a[4], b[0], b[1], b[2], b[3], b[4]);
    out[0] := a[0] + b[0];
    out[1] := a[1] + b[1];
    out[2] := a[2] + b[2];
    out[3] := a[3] + b[3];
    out[4] := a[4] + b[4];
  }

  // 2p, limb by limb, is added first, so that no limb difference goes below zero.
  method SubNoReduce(out: array<u64>, a: array<u64>, b: array<u64>)
    requires out.Length == 5 && Below(a, TWO_63) && Below(b, 0xFFFFFFFFFFFDB)
    modifies out
    ensures out[0] == old(a[0] + 0xFFFFFFFFFFFDA - b[0])
    ensures forall i :: 1 <= i < 5 ==> out[i] == old(a[i] + 0xFFFFFFFFFFFFE - b[i])
    ensures Elem(out) == FSub(old(Elem(a)), old(Elem(b)))
  {
    hide FSub, Val5;
    SubLimbs(a[0], a[1], a[2], a[3], a[4], b[0], b[1], b[2], b[3], b[4]);
    out[0] := a[0] + 0xFFFFFFFFFFFDA - b[0];
    out[1] := a[1] + 0xFFFFFFFFFFFFE - b[1];
    out[2] := a[2] + 0xFFFFFFFFFFFFE - b[2];
    out[3] := a[3] + 0xFFFFFFFFFFFFE - b[3];
    out[4] := a[4] + 0xFFFFFFFFFFFFE - b[4];
  }

  lemma FourPLimbs(a0: int, a1: int, a2: int, a3: int, a4: int, b0: int, b1: int, b2: int, b3: int, b4: int)
    ensures Val5(a0 + 0x1FFFFFFFFFFFB4 - b0, a1 + 0x1FFFFFFFFFFFFC - b1, a2 + 0x1FFFFFFFFFFFFC - b2,
                 a3 + 0x1FFFFFFFFFFFFC - b3, a4 + 0x1FFFFFFFFFFFFC - b4) % P
            == FSub(Val5(a0, a1, a2, a3, a4) % P, Val5(b0, b1, b2, b3, b4) % P)
  {
    SumResidue(Val5(a0, a1, a2, a3, a4), Val5(b0, b1, b2, b3, b4), 4);
  }

  // The same with 4p, for a second operand of one bit more.
  method SubNoReduceFourP(out: array<u64>, a: array<u64>, b: array<u64>)
    requires out.Length == 5 && Below(a, TWO_63) && Below(b, 0x1FFFFFFFFFFFB5)
    modifies out
    ensures out[0] == old(a[0] + 0x1FFFFFFFFFFFB4 - b[0])
    ensures forall i :: 1 <= i < 5 ==> out[i] == old(a[i] + 0x1FFFFFFFFFFFFC - b[i])
    ensures Elem(out) == FSub(old(Elem(a)), old(Elem(b)))
  {
    hide FSub, Val5;
    FourPLimbs(a[0], a[1], a[2], a[3], a[4], b[0], b[1], b[2], b[3], b[4]);
    out[0] := a[0] + 0x1FFFFFFFFFFFB4 - b[0];
    out[1] := a[1] + 0x1FFFFFFFFFFFFC - b[1];
    out[2] := a[2] + 0x1FFFFFFFFFFFFC - b[2];
    out[3] := a[3] + 0x1FFFFFFFFFFFFC - b[3];
    out[4] := a[4] + 0x1FFFFFFFFFFFFC - b[4];
  }

  // Limb sums below 2^63 after one pass of carries.
  lemma SumCarries(t0: int, t1: int, t2: int, t3: int, t4: int)
    requires 0 <= t0 < TWO_63 && 0 <= t1 < TWO_63 && 0 <= t2 < TWO_63
    requires 0 <= t3 < TWO_63 && 0 <= t4 < TWO_63
    ensures var u1 := t1 + Hi51(t0);
            var u2 := t2 + Hi51(u1);
            var u3 := t3 + Hi51(u2);
            var u4 := t4 + Hi51(u3);
            0 <= Hi51(t0) < 0x2000 && 0 <= Hi51(u1) < 0x2000 && 0 <= Hi51(u2) < 0x2000 && 0 <= Hi51(u3) < 0x2000 &&
            0 <= Hi51(u4) < 0x1800 &&
            0 <= Lo51(t0) < TWO_51 && 0 <= Lo51(u1) < TWO_51 && 0 <= Lo51(u2) < TWO_51 &&
            0 <= Lo51(u3) < TWO_51 && 0 <= Lo51(u4) < TWO_51 &&
            Val5(Lo51(t0) + Hi51(u4) * 19, Lo51(u1), Lo51(u2), Lo51(u3), Lo51(u4)) % P == Val5(t0, t1, t2, t3, t4) % P
  {
    hide Lo51, Hi51, Val5;
    var u1 := t1 + Hi51(t0);
    var u2 := t2 + Hi51(u1);
    var u3 := t3 + Hi51(u2);
    var u4 := t4 + Hi51(u3);
    SplitAt51(t0);
    SplitAt51(u1);
    SplitAt51(u2);
    SplitAt51(u3);
    SplitAt51(u4);
    var w := Lo51(t0) + Hi51(u4) * 19;
    CarryIdentity(t0, t1, t2, t3, t4, Lo51(t0), Lo51(u1), Lo51(u2), Lo51(u3), Lo51(u4),
                  Hi51(t0), Hi51(u1), Hi51(u2), Hi51(u3), Hi51(u4), w, 0);
    ModAddMultiple(Val5(w, Lo51(u1), Lo51(u2), Lo51(u3), Lo51(u4)), Hi51(u4), P);
  }

  // Carried limbs: the first may exceed 2^51 by the folded top carry.
  ghost predicate Carried(a: array<u64>)
    reads a
  {
    Below(a, 0x8000000020000) && a[1] < TWO_51 && a[2] < TWO_51 && a[3] < TWO_51 && a[4] < TWO_51
  }

  method Add(out: array<u64>, a: array<u64>, b: array<u64>)
    requires out.Length == 5 && Below(a, TWO_62) && Below(b, TWO_62)
    modifies out
    ensures Carried(out) && Elem(out) == FAdd(old(Elem(a)), old(Elem(b)))
  {
    hide FAdd, Val5, Lo51, Hi51;
    AddLimbs(a[0], a[1], a[2], a[3], a[4], b[0], b[1], b[2], b[3], b[4]);
    SumCarries(a[0] + b[0], a[1] + b[1], a[2] + b[2], a[3] + b[3], a[4] + b[4]);
    out[0] := a[0] + b[0];
    out[1] := a[1] + b[1] + Hi51(out[0]);
    out[0] := Lo51(out[0]);
    out[2] := a[2] + b[2] + Hi51(out[1]);
    out[1] := Lo51(out[1]);
    out[3] := a[3] + b[3] + Hi51(out[2]);
    out[2] := Lo51(out[2]);
    out[4] := a[4] + b[4] + Hi51(out[3]);
    out[3] := Lo51(out[3]);
    out[0] := out[0] + Hi51(out[4]) * 19;
    out[4] := Lo51(out[4]);
  }

  method Sub(out: array<u64>, a: array<u64>, b: array<u64>)
    requires out.Length == 5 && Below(a, TWO_62) && Below(b, 0xFFFFFFFFFFFDB)
    modifies out
    ensures Carried(out) && Elem(out) == FSub(old(Elem(a)), old(Elem(b)))
  {
    hide FSub, Val5, Lo51, Hi51;
    SubLimbs(a[0], a[1], a[2], a[3], a[4], b[0], b[1], b[2], b[3], b[4]);
    SumCarries(a[0] + 0xFFFFFFFFFFFDA - b[0], a[1] + 0xFFFFFFFFFFFFE - b[1], a[2] + 0xFFFFFFFFFFFFE - b[2],
               a[3] + 0xFFFFFFFFFFFFE - b[3], a[4] + 0xFFFFFFFFFFFFE - b[4]);
    out[0] := a[0] + 0xFFFFFFFFFFFDA - b[0];
    out[1] := a[1] + 0xFFFFFFFFFFFFE - b[1] + Hi51(out[0]);
    out[0] := Lo51(out[0]);
    out[2] := a[2] + 0xFFFFFFFFFFFFE - b[2] + Hi51(out[1]);
    out[1] := Lo51(out[1]);
    out[3] := a[3] + 0xFFFFFFFFFFFFE - b[3] + Hi51(out[2]);
    out[2] := Lo51(out[2]);
    out[4] := a[4] + 0xFFFFFFFFFFFFE - b[4] + Hi51(out[3]);
    out[3] := Lo51(out[3]);
    out[0] := out[0] + Hi51(out[4]) * 19;
    out[4] := Lo51(out[4]);
  }

  lemma ScaleLimbs(a0: int, a1: int, a2: int, a3: int, a4: int, c: int)
    requires Loose5(a0, a1, a2, a3, a4) && 0 <= c < TWO_56
    ensures var t0 := Mul128(a0, c);
            var t1 := Mul128(a1, c) + Hi51(t0);
            var t2 := Mul128(a2, c) + Hi51(t1);
            var t3 := Mul128(a3, c) + Hi51(t2);
            var t4 := Mul128(a4, c) + Hi51(t3);
            0 <= t0 < TWO_111 && 0 <= t1 < TWO_111 && 0 <= t2 < TWO_111 &&
            0 <= t3 < TWO_111 && 0 <= t4 < TWO_111 &&
            0 <= Hi51(t0) < TWO_60 && 0 <= Hi51(t1) < TWO_60 && 0 <= Hi51(t2) < TWO_60 &&
            0 <= Hi51(t3) < TWO_60 && 0 <= Hi51(t4) <= 8 * c + 0x200 &&
            0 <= Lo51(t0) < TWO_51 && 0 <= Lo51(t1) < TWO_51 && 0 <= Lo51(t2) < TWO_51 &&
            0 <= Lo51(t3) < TWO_51 && 0 <= Lo51(t4) < TWO_51 &&
            Val5(Lo51(t0) + Hi51(t4) * 19, Lo51(t1), Lo51(t2), Lo51(t3), Lo51(t4)) % P
            == FMul(Val5(a0, a1, a2, a3, a4) % P, c % P)
  {
    hide Lo51, Hi51, Val5, Mul128, FMul;
    Row(c, a0, a1, a2, a3, a4);
    Mul128Bound(a0, c, TWO_54, c);
    Mul128Bound(a1, c, TWO_54, c);
    Mul128Bound(a2, c, TWO_54, c);
    Mul128Bound(a3, c, TWO_54, c);
    Mul128Bound(a4, c, TWO_54, c);
    var t0 := Mul128(a0, c);
    var t1 := Mul128(a1, c) + Hi51(t0);
    var t2 := Mul128(a2, c) + Hi51(t1);
    var t3 := Mul128(a3, c) + Hi51(t2);
    var t4 := Mul128(a4, c) + Hi51(t3);
    SplitAt51(t0);
    SplitAt51(t1);
    SplitAt51(t2);
    SplitAt51(t3);
    SplitAt51(t4);
    CarryIdentity(Mul128(a0, c), Mul128(a1, c), Mul128(a2, c), Mul128(a3, c), Mul128(a4, c),
                  Lo51(t0), Lo51(t1), Lo51(t2), Lo51(t3), Lo51(t4), Hi51(t0), Hi51(t1), Hi51(t2), Hi51(t3), Hi51(t4),
                  Lo51(t0) + Hi51(t4) * 19, 0);
    ProductResidue(Val5(a0, a1, a2, a3, a4), c, Val5(Lo51(t0) + Hi51(t4) * 19, Lo51(t1), Lo51(t2), Lo51(t3), Lo51(t4)),
                   Hi51(t4));
  }

  // Above 2^56 the casts to 64 bits would drop bits.
  method MulScalar(out: array<u64>, a: array<u64>, scalar: u64)
    requires out.Length == 5 && Below(a, TWO_54) && scalar < TWO_56
    modifies out
    ensures out[0] < 0x8000000002800 + 152 * scalar
    ensures out[1] < TWO_51 && out[2] < TWO_51 && out[3] < TWO_51 && out[4] < TWO_51
    ensures Elem(out) == FMul(old(Elem(a)), scalar % P)
  {
    hide Val5, FMul, Mul128, Lo51, Hi51;
    ScaleLimbs(a[0], a[1], a[2], a[3], a[4], scalar);
    var a1, a2, a3, a4 := a[1], a[2], a[3], a[4];
    var x: u128 := Mul128(a[0], scalar);
    out[0] := Lo51(x);
    x := Mul128(a1, scalar) + Hi51(x);
    out[1] := Lo51(x);
    x := Mul128(a2, scalar) + Hi51(x);
    out[2] := Lo51(x);
    x := Mul128(a3, scalar) + Hi51(x);
    out[3] := Lo51(x);
    x := Mul128(a4, scalar) + Hi51(x);
    out[4] := Lo51(x);
    out[0] := out[0] + Hi51(x) * 19;
  }

  // Constant-time conditional swap.
  method CSwap(a: array<u64>, b: array<u64>, shouldSwap: u64)
    requires a.Length == 5 && b.Length == 5 && a != b && shouldSwap <= 1
    modifies a, b
    ensures shouldSwap == 0 ==> a[..] == old(a[..]) && b[..] == old(b[..])
    ensures shouldSwap == 1 ==> a[..] == old(b[..]) && b[..] == old(a[..])
  {
    var swap: u64 := (TWO_64 - shouldSwap) % TWO_64;
    assert swap == if shouldSwap == 0 then 0 else 0xFFFF_FFFF_FFFF_FFFF;
    for i := 0 to 5
      invariant forall j :: 0 <= j < i ==> a[j] == (if shouldSwap == 0 then old(a[j]) else old(b[j]))
      invariant forall j :: 0 <= j < i ==> b[j] == (if shouldSwap == 0 then old(b[j]) else old(a[j]))
      invariant forall j :: i <= j < 5 ==> a[j] == old(a[j]) && b[j] == old(b[j])
    {
      hide *;
      Select64(a[i], b[i]);
      var x: nat := And(swap, Xor(a[i], b[i]));
      a[i], b[i] := Xor(a[i], x), Xor(b[i], x);
    }
  }

  // Full reduction.

  // One pass of carries around the ring of limbs; k is what falls off the top and re-enters at the bottom as 19 * k.
  method CarryPass(a: array<u64>) returns (ghost k: int)
    requires Below(a, TWO_63)
    modifies a
    ensures 0 <= k <= 0x1000 && a[1] < TWO_51 && a[2] < TWO_51 && a[3] < TWO_51 && a[4] < TWO_51
    ensures 19 * k <= a[0] < TWO_51 + 19 * k
    ensures Val(a) == old(Val(a)) - k * P
  {
    hide Val5, Lo51, Hi51;
    ghost var a0, a1, a2, a3, a4 := a[0], a[1], a[2], a[3], a[4];
    SplitAt51(a[0]);
    a[1] := a[1] + Hi51(a[0]);
    a[0] := Lo51(a[0]);
    ghost var u1 := a[1];
    SplitAt51(a[1]);
    a[2] := a[2] + Hi51(a[1]);
    a[1] := Lo51(a[1]);
    ghost var u2 := a[2];
    SplitAt51(a[2]);
    a[3] := a[3] + Hi51(a[2]);
    a[2] := Lo51(a[2]);
    ghost var u3 := a[3];
    SplitAt51(a[3]);
    a[4] := a[4] + Hi51(a[3]);
    a[3] := Lo51(a[3]);
    k := Hi51(a[4]);
    ghost var u4 := a[4];
    SplitAt51(a[4]);
    a[0] := a[0] + 19 * Hi51(a[4]);
    a[4] := Lo51(a[4]);
    CarryIdentity(a0, a1, a2, a3, a4, Lo51(a0), Lo51(u1), Lo51(u2), Lo51(u3), Lo51(u4),
                  Hi51(a0), Hi51(u1), Hi51(u2), Hi51(u3), Hi51(u4), Lo51(a0) + 19 * Hi51(u4), 0);
  }

  // The value of limbs that are all in place, and which limbs a value below 2^255 has.
  lemma ValRange(a0: int, a1: int, a2: int, a3: int, a4: int, n: int)
    requires 0 <= a0 < n && 0 <= a1 < TWO_51 && 0 <= a2 < TWO_51 && 0 <= a3 < TWO_51 && 0 <= a4 < TWO_51
    ensures a0 <= Val5(a0, a1, a2, a3, a4) < TWO_255 + n - TWO_51
  {
  }

  method Reduce(a: array<u64>)
    requires Below(a, TWO_63)
    modifies a
    ensures Below(a, TWO_51)
    ensures Val(a) == old(Val(a)) % P
  {
    hide Val5;
    ghost var v := Val(a);
    ghost var k1 := CarryPass(a);
    ValRange(a[0], a[1], a[2], a[3], a[4], TWO_51 + 19 * k1);

    ghost var k2 := CarryPass(a);
    SettledPass(a[0], a[1], a[2], a[3], a[4], v - k1 * P, k2, 19 * 0x1000);
    ghost var w := Val(a);
    ValRange(a[0], a[1], a[2], a[3], a[4], TWO_51);

    ShiftLimb(a[0], a[1], a[2], a[3], a[4], 19);
    a[0] := a[0] + 19;
    ghost var k3 := CarryPass(a);
    SettledPass(a[0], a[1], a[2], a[3], a[4], w + 19, k3, 19);
    ghost var x := Val(a);
    ValRange(a[0], a[1], a[2], a[3], a[4], TWO_51);

    RaiseLimbs(a[0], a[1], a[2], a[3], a[4]);
    a[0] := a[0] + (TWO_51 - 19);
    a[1] := a[1] + (TWO_51 - 1);
    a[2] := a[2] + (TWO_51 - 1);
    a[3] := a[3] + (TWO_51 - 1);
    a[4] := a[4] + (TWO_51 - 1);
    ReducedValue(v, k1, k2, w, k3, x);
    DropTop(a, x - 19);
  }

  // Once the value is below 2^255 + e a pass leaves every limb in place.
  lemma SettledPass(a0: int, a1: int, a2: int, a3: int, a4: int, before: int, k: int, e: int)
    requires 0 <= a1 < TWO_51 && 0 <= a2 < TWO_51 && 0 <= a3 < TWO_51 && 0 <= a4 < TWO_51
    requires 0 <= k && 19 * k <= a0 < TWO_51 + 19 * k
    requires Val5(a0, a1, a2, a3, a4) == before - k * P && before < TWO_255 + e && 0 <= e <= 19 * 0x1000
    ensures k <= 1 && a0 < TWO_51
    ensures k == 1 ==> before >= TWO_255
    ensures k == 0 ==> before < TWO_255
  {
    assert Val5(a0 - 19 * k, a1, a2, a3, a4) == before - k * TWO_255;
    ValRange(a0 - 19 * k, a1, a2, a3, a4, TWO_51);
  }

  lemma ShiftLimb(a0: int, a1: int, a2: int, a3: int, a4: int, d: int)
    ensures Val5(a0 + d, a1, a2, a3, a4) == Val5(a0, a1, a2, a3, a4) + d
  {
  }

  lemma RaiseLimbs(a0: int, a1: int, a2: int, a3: int, a4: int)
    ensures Val5(a0 + (TWO_51 - 19), a1 + (TWO_51 - 1), a2 + (TWO_51 - 1),
                 a3 + (TWO_51 - 1), a4 + (TWO_51 - 1)) == Val5(a0, a1, a2, a3, a4) + TWO_255 - 19
  {
  }

  lemma ReducedValue(v: int, k1: int, k2: int, w: int, k: int, x: int)
    requires w == v - k1 * P - k2 * P && 0 <= w < TWO_255 && 0 <= k <= 1 && x == w + 19 - k * P
    requires (k == 1) <==> (w + 19 >= TWO_255)
    ensures 0 <= x - 19 < P && x - 19 == v % P
  {
    ModAddMultiple(v, -k1 - k2 - k, P);
    assert x - 19 == v + (-k1 - k2 - k) * P;
    DivModUnique(x - 19, P, 0, x - 19);
  }

  lemma DropTopIdentity(a0: int, a1: int, a2: int, a3: int, a4: int, h0: int, h1: int, h2: int, h3: int, h4: int,
                        l0: int, l1: int, l2: int, l3: int, l4: int)
    requires a0 == l0 + TWO_51 * h0 && a1 + h0 == l1 + TWO_51 * h1
    requires a2 + h1 == l2 + TWO_51 * h2 && a3 + h2 == l3 + TWO_51 * h3
    requires a4 + h3 == l4 + TWO_51 * h4
    ensures Val5(a0, a1, a2, a3, a4) == Val5(l0, l1, l2, l3, l4) + h4 * TWO_255
  {
  }

  // The last carry: limbs of x + 2^255 lose exactly bit 255.
  method DropTop(a: array<u64>, ghost x: int)
    requires Below(a, TWO_53) && 0 <= x < TWO_255 && Val(a) == x + TWO_255
    modifies a
    ensures Below(a, TWO_51) && Val(a) == x
  {
    hide Val5, Lo51, Hi51;
    ghost var a0, a1, a2, a3, a4 := a[0], a[1], a[2], a[3], a[4];
    SplitAt51(a[0]);
    a[1] := a[1] + Hi51(a[0]);
    SplitAt51(a[1]);
    a[2] := a[2] + Hi51(a[1]);
    SplitAt51(a[2]);
    a[3] := a[3] + Hi51(a[2]);
    SplitAt51(a[3]);
    a[4] := a[4] + Hi51(a[3]);
    SplitAt51(a[4]);
    DropTopIdentity(a0, a1, a2, a3, a4, Hi51(a0), Hi51(a[1]), Hi51(a[2]), Hi51(a[3]), Hi51(a[4]),
                    Lo51(a0), Lo51(a[1]), Lo51(a[2]), Lo51(a[3]), Lo51(a[4]));
    ValRange(Lo51(a0), Lo51(a[1]), Lo51(a[2]), Lo51(a[3]), Lo51(a[4]), TWO_51);
    a[0] := Lo51(a[0]);
    a[1] := Lo51(a[1]);
    a[2] := Lo51(a[2]);
    a[3] := Lo51(a[3]);
    a[4] := Lo51(a[4]);
  }

  // 32-byte strings.

  lemma FieldOfSlice(x: nat, word: nat, d: nat, s: nat, r: nat, at: nat)
    requires d > 0 && s > 0 && r > 0 && s * (TWO_51 * r) == TWO_64 && at == d * s
    requires word == x / d % TWO_64
    ensures at > 0 && word / s % TWO_51 == x / at % TWO_51
  {
    DivDiv(x, d, s);
    FieldOf(x / d, s, TWO_51, r, TWO_64);
  }

  // A limb read from an unaligned 64-bit load is the 51-bit field at bit 8i + log2(s) of the whole number.
  lemma LoadLimb(input: seq<u8>, i: nat, s: nat, r: nat, at: nat)
    requires i + 8 <= |input| && s > 0 && r > 0 && s * (TWO_51 * r) == TWO_64 && at == Pow256(i) * s
    ensures at > 0 && LoadU64(input, i) / s % TWO_51 == LeNat(input) / at % TWO_51
  {
    LeNatSlice(input, i, 8);
    Pow256Offsets();
    FieldOfSlice(LeNat(input), LoadU64(input, i), Pow256(i), s, r, at);
  }

  // The 51-bit fields of a number make up the number modulo 2^255.
  lemma FieldsOfNumber(x: nat)
    ensures Val5(x % TWO_51, x / TWO_51 % TWO_51, x / TWO_102 % TWO_51,
                 x / TWO_153 % TWO_51,
                 x / TWO_204 % TWO_51) == x % TWO_255
  {
    DivDiv(x, TWO_51, TWO_51);
    DivDiv(x, TWO_102, TWO_51);
    DivDiv(x, TWO_153, TWO_51);
    DivDiv(x, TWO_204, TWO_51);
    var x1 := x / TWO_51;
    var x2 := x1 / TWO_51;
    var x3 := x2 / TWO_51;
    var x4 := x3 / TWO_51;
    var x5 := x4 / TWO_51;
    var v := Val5(x % TWO_51, x1 % TWO_51, x2 % TWO_51, x3 % TWO_51, x4 % TWO_51);
    assert x == v + TWO_255 * x5;
    ValRange(x % TWO_51, x1 % TWO_51, x2 % TWO_51, x3 % TWO_51, x4 % TWO_51, TWO_51);
    DivModUnique(x, TWO_255, x5, v);
  }

  method Load(a: array<u64>, input: seq<u8>)
    requires a.Length == 5 && |input| == 32
    modifies a
    ensures Below(a, TWO_51)
    ensures Val(a) == LeNat(input) % TWO_255
  {
    hide Val5, LoadU64, LeNat, Pow256;
    Pow256Offsets();
    LoadLimb(input, 0, 1, 0x2000, 1);
    LoadLimb(input, 6, 8, 0x400, TWO_51);
    LoadLimb(input, 12, 0x40, 0x80, TWO_102);
    LoadLimb(input, 19, 2, 0x1000, TWO_153);
    LoadLimb(input, 24, 0x1000, 2, TWO_204);
    FieldsOfNumber(LeNat(input));
    a[0] := LoadU64(input, 0) % TWO_51;
    a[1] := LoadU64(input, 6) / 8 % TWO_51;
    a[2] := LoadU64(input, 12) / 0x40 % TWO_51;
    a[3] := LoadU64(input, 19) / 2 % TWO_51;
    a[4] := LoadU64(input, 24) / 0x1000 % TWO_51;
  }

  // The four 64-bit words of a value given by limbs below 2^51.
  lemma PackedWords(a0: int, a1: int, a2: int, a3: int, a4: int)
    requires 0 <= a0 < TWO_51 && 0 <= a1 < TWO_51 && 0 <= a2 < TWO_51 && 0 <= a3 < TWO_51 && 0 <= a4 < TWO_51
    ensures var w0 := a0 + a1 * TWO_51 % TWO_64;
            var w1 := a1 / 0x2000 + a2 * TWO_38 % TWO_64;
            var w2 := a2 / 0x4000000 + a3 * 0x2000000 % TWO_64;
            var w3 := a3 / TWO_39 + a4 * 0x1000;
            w0 < TWO_64 && w1 < TWO_64 && w2 < TWO_64 && w3 < TWO_63 &&
            Val5(a0, a1, a2, a3, a4) == w0 + w1 * TWO_64 + w2 * TWO_128 + w3 * TWO_192
  {
    assert a1 * TWO_51 % TWO_64 == a1 % 0x2000 * TWO_51;
    assert a2 * TWO_38 % TWO_64 == a2 % 0x4000000 * TWO_38;
    assert a3 * 0x2000000 % TWO_64 == a3 % TWO_39 * 0x2000000;
  }

  lemma PackShifts()
    ensures Pow2(12) == 0x1000 && Pow2(25) == 0x2000000 && Pow2(38) == TWO_38 && Pow2(51) == TWO_51
  {
    assert Pow2(12) == 0x1000 && Pow2(13) == 0x2000;
    hide *;
    Pow2Sum(12, 0x1000, 13, 0x2000, 25);
    Pow2Sum(25, 0x2000000, 13, 0x2000, 38);
    Pow2Sum(38, TWO_38, 13, 0x2000, 51);
  }

  lemma PackedOrs(a0: nat, a1: nat, a2: nat, a3: nat, a4: nat)
    requires a0 < TWO_51 && a1 < TWO_51 && a2 < TWO_51 && a3 < TWO_51 && a4 < TWO_51
    ensures Or(a0, a1 * TWO_51 % TWO_64) == a0 + a1 * TWO_51 % TWO_64
    ensures Or(a1 / 0x2000, a2 * TWO_38 % TWO_64) == a1 / 0x2000 + a2 * TWO_38 % TWO_64
    ensures Or(a2 / 0x4000000, a3 * 0x2000000 % TWO_64) == a2 / 0x4000000 + a3 * 0x2000000 % TWO_64
    ensures Or(a3 / TWO_39, a4 * 0x1000 % TWO_64) == a3 / TWO_39 + a4 * 0x1000
  {
    hide Pow2, Or;
    PackShifts();
    OrShifted(a0, a1, 51, TWO_51, 0x2000);
    OrShifted(a1 / 0x2000, a2, 38, TWO_38, 0x4000000);
    OrShifted(a2 / 0x4000000, a3, 25, 0x2000000, TWO_39);
    OrShifted(a3 / TWO_39, a4, 12, 0x1000, TWO_52);
  }

  method Store(out: array<u8>, a: array<u64>)
    requires out.Length == 32 && Below(a, TWO_51)
    modifies out
    ensures LeNat(out[..]) == old(Val(a))
  {
    hide Val5, LeNat, Or;
    var a0: int, a1: int, a2: int, a3: int, a4: int := a[0], a[1], a[2], a[3], a[4];
    PackedWords(a0, a1, a2, a3, a4);
    PackedOrs(a0, a1, a2, a3, a4);
    StoreFour(out, Or(a0, a1 * TWO_51 % TWO_64), Or(a1 / 0x2000, a2 * TWO_38 % TWO_64),
              Or(a2 / 0x4000000, a3 * 0x2000000 % TWO_64), Or(a3 / TWO_39, a4 * 0x1000 % TWO_64));
  }

  // Limbs below 2^51 are determined by their value.
  lemma LimbsUnique(a0: int, a1: int, a2: int, a3: int, a4: int, b0: int, b1: int, b2: int, b3: int, b4: int)
    requires 0 <= a0 < TWO_51 && 0 <= a1 < TWO_51 && 0 <= a2 < TWO_51 && 0 <= a3 < TWO_51 && 0 <= a4 < TWO_51
    requires 0 <= b0 < TWO_51 && 0 <= b1 < TWO_51 && 0 <= b2 < TWO_51 && 0 <= b3 < TWO_51 && 0 <= b4 < TWO_51
    requires Val5(a0, a1, a2, a3, a4) == Val5(b0, b1, b2, b3, b4)
    ensures a0 == b0 && a1 == b1 && a2 == b2 && a3 == b3 && a4 == b4
  {
    var v := Val5(a0, a1, a2, a3, a4);
    var p4, q4 := a3 + TWO_51 * a4, b3 + TWO_51 * b4;
    var p3, q3 := a2 + TWO_51 * p4, b2 + TWO_51 * q4;
    var p2, q2 := a1 + TWO_51 * p3, b1 + TWO_51 * q3;
    assert v == a0 + TWO_51 * p2 && v == b0 + TWO_51 * q2;
    hide *;
    DivModUnique(v, TWO_51, p2, a0);
    DivModUnique(v, TWO_51, q2, b0);
    DivModUnique(p2, TWO_51, p3, a1);
    DivModUnique(p2, TWO_51, q3, b1);
    DivModUnique(p3, TWO_51, p4, a2);
    DivModUnique(p3, TWO_51, q4, b2);
    DivModUnique(p4, TWO_51, a4, a3);
    DivModUnique(p4, TWO_51, b4, b3);
  }

  // `curve25519_load` after `curve25519_store`.
  method StoreThenLoad(bytes: array<u8>, a: array<u64>, b: array<u64>)
    requires bytes.Length == 32 && b.Length == 5 && Below(a, TWO_51)
    modifies bytes, b
    ensures b[..] == old(a[..])
  {
    hide Val5;
    ghost var a0, a1, a2, a3, a4 := a[0], a[1], a[2], a[3], a[4];
    ValRange(a0, a1, a2, a3, a4, TWO_51);
    Store(bytes, a);
    Load(b, bytes[..]);
    LimbsUnique(a0, a1, a2, a3, a4, b[0], b[1], b[2], b[3], b[4]);
  }

  // `curve25519_store` after `curve25519_load` clears bit 255 and nothing else.
  method LoadThenStore(bytes: array<u8>, input: seq<u8>, a: array<u64>)
    requires bytes.Length == 32 && a.Length == 5 && |input| == 32
    modifies bytes, a
    ensures bytes[..31] == input[..31] && bytes[31] == input[31] % 0x80
  {
    Load(a, input);
    Store(bytes, a);
    hide *;
    TopBit(input, bytes[..]);
  }

  lemma TopByte(s: seq<u8>, x: u8)
    requires |s| == 31
    ensures LeNat(s + [x]) == LeNat(s) + TWO_248 * x && LeNat(s) < TWO_248
  {
    assert Pow256(31) == TWO_248 by {
      Pow256Offsets();
      assert Pow256(32) == 0x100 * Pow256(31);
    }
    LeNatConcat(s, [x]);
    LeNatOne(x);
    LeBytesNat(s);
  }

  lemma TopBit(s: seq<u8>, t: seq<u8>)
    requires |s| == 32 && |t| == 32 && LeNat(t) == LeNat(s) % TWO_255
    ensures t[..31] == s[..31] && t[31] == s[31] % 0x80
  {
    hide LeNat, LeBytes, Pow256;
    var u := s[..31] + [s[31] % 0x80];
    assert s == s[..31] + [s[31]];
    TopByte(s[..31], s[31]);
    TopByte(s[..31], s[31] % 0x80);
    TopBitValue(LeNat(s[..31]), s[31]);
    LeBytesNat(t);
    LeBytesNat(u);
    assert t == u;
  }

  lemma LeNatOne(x: u8)
    ensures LeNat([x]) == x
  {
  }

  lemma TopBitValue(low: nat, top: u8)
    requires low < TWO_248
    ensures (low + TWO_248 * top) % TWO_255 == low + TWO_248 * (top % 0x80)
  {
    DivModUnique(low + TWO_248 * top, TWO_255, top / 0x80, low + TWO_248 * (top % 0x80));
  }

  // The addition chain for inversion and square roots.

  lemma ChainSquare(x: int, e: nat, n: nat, f: nat)
    requires f == e * Pow2(n)
    ensures FPow(FPow(x, e), Pow2(n)) == FPow(x, f)
  {
    FPowMul(x, e, Pow2(n), f);
  }

  lemma ChainStart(x: int)
    requires IsResidue(x)
    ensures FPow(x, 1) == x
  {
    FMulOne(x);
  }

  lemma Pow2Values()
    ensures Pow2(1) == 2 && Pow2(2) == 4 && Pow2(5) == 0x20 && Pow2(10) == 0x400 && Pow2(20) == 0x100000
    ensures Pow2(50) == 0x4_0000_0000_0000 && Pow2(100) == 0x10_0000_0000_0000_0000_0000_0000
  {
    assert Pow2(1) == 2 && Pow2(2) == 4 && Pow2(5) == 0x20;
    hide *;
    Pow2Sum(5, 0x20, 5, 0x20, 10);
    Pow2Sum(10, 0x400, 10, 0x400, 20);
    Pow2Sum(20, 0x100000, 20, 0x100000, 40);
    Pow2Sum(40, 0x100_0000_0000, 10, 0x400, 50);
    Pow2Sum(50, 0x4_0000_0000_0000, 50, 0x4_0000_0000_0000, 100);
  }

  // a = z^11 and b = z^(2^250 - 1).
  method Pow11PowTwo250(a: array<u64>, b: array<u64>, z: array<u64>)
    requires a.Length == 5 && b.Length == 5 && Below(z, TWO_54) && a != b && a != z
    modifies a, b
    ensures Tight(a) && Tight(b)
    ensures Elem(a) == FPow(old(Elem(z)), 11)
    ensures Elem(b) == FPow(old(Elem(z)), 0x3FFFFFFFFFFFFFFFFFFFFFFFFFFFFFFFFFFFFFFFFFFFFFFFFFFFFFFFFFFFFFF)
  {
    hide Val5, FPow, FMul, Pow2;
    ghost var x := Elem(z);
    var t0 := new u64[5];
    var c := new u64[5];
    ChainStart(x);
    Pow2Values();
    SquareN(a, z, 1);
    ChainSquare(x, 0x1, 1, 0x2);
    assert Elem(a) == FPow(x, 0x2);
    SquareN(t0, a, 2);
    ChainSquare(x, 0x2, 2, 0x8);
    assert Elem(t0) == FPow(x, 0x8);
    Mul(b, t0, z);
    FPowAdd(x, 0x8, 0x1);
    assert Elem(b) == FPow(x, 0x9);
    Mul(a, b, a);
    FPowAdd(x, 0x9, 0x2);
    assert Elem(a) == FPow(x, 0xB);
    SquareN(t0, a, 1);
    ChainSquare(x, 0xB, 1, 0x16);
    assert Elem(t0) == FPow(x, 0x16);
    Mul(b, t0, b);
    FPowAdd(x, 0x16, 0x9);
    assert Elem(b) == FPow(x, 0x1F);
    SquareN(t0, b, 5);
    ChainSquare(x, 0x1F, 5, 0x3E0);
    assert Elem(t0) == FPow(x, 0x3E0);
    Mul(b, t0, b);
    FPowAdd(x, 0x3E0, 0x1F);
    assert Elem(b) == FPow(x, 0x3FF);
    SquareN(t0, b, 10);
    ChainSquare(x, 0x3FF, 10, 0xFFC00);
    assert Elem(t0) == FPow(x, 0xFFC00);
    Mul(c, t0, b);
    FPowAdd(x, 0xFFC00, 0x3FF);
    assert Elem(c) == FPow(x, 0xFFFFF);
    SquareN(t0, c, 20);
    ChainSquare(x, 0xFFFFF, 20, 0xFFFFF00000);
    assert Elem(t0) == FPow(x, 0xFFFFF00000);
    Mul(t0, t0, c);
    FPowAdd(x, 0xFFFFF00000, 0xFFFFF);
    assert Elem(t0) == FPow(x, 0xFFFFFFFFFF);
    SquareN(t0, t0, 10);
    ChainSquare(x, 0xFFFFFFFFFF, 10, 0x3FFFFFFFFFC00);
    assert Elem(t0) == FPow(x, 0x3FFFFFFFFFC00);
    Mul(b, t0, b);
    FPowAdd(x, 0x3FFFFFFFFFC00, 0x3FF);
    assert Elem(b) == FPow(x, 0x3FFFFFFFFFFFF);
    SquareN(t0, b, 50);
    ChainSquare(x, 0x3FFFFFFFFFFFF, 50, 0xFFFFFFFFFFFFC000000000000);
    assert Elem(t0) == FPow(x, 0xFFFFFFFFFFFFC000000000000);
    Mul(c, t0, b);
    FPowAdd(x, 0xFFFFFFFFFFFFC000000000000, 0x3FFFFFFFFFFFF);
    assert Elem(c) == FPow(x, 0xFFFFFFFFFFFFFFFFFFFFFFFFF);
    SquareN(t0, c, 100);
    ChainSquare(x, 0xFFFFFFFFFFFFFFFFFFFFFFFFF, 100, 0xFFFFFFFFFFFFFFFFFFFFFFFFF0000000000000000000000000);
    assert Elem(t0) == FPow(x, 0xFFFFFFFFFFFFFFFFFFFFFFFFF0000000000000000000000000);
    Mul(t0, t0, c);
    FPowAdd(x, 0xFFFFFFFFFFFFFFFFFFFFFFFFF0000000000000000000000000, 0xFFFFFFFFFFFFFFFFFFFFFFFFF);
    assert Elem(t0) == FPow(x, 0xFFFFFFFFFFFFFFFFFFFFFFFFFFFFFFFFFFFFFFFFFFFFFFFFFF);
    SquareN(t0, t0, 50);
    ChainSquare(x, 0xFFFFFFFFFFFFFFFFFFFFFFFFFFFFFFFFFFFFFFFFFFFFFFFFFF, 50,
                0x3FFFFFFFFFFFFFFFFFFFFFFFFFFFFFFFFFFFFFFFFFFFFFFFFFC000000000000);
    assert Elem(t0) == FPow(x, 0x3FFFFFFFFFFFFFFFFFFFFFFFFFFFFFFFFFFFFFFFFFFFFFFFFFC000000000000);
    Mul(b, t0, b);
    FPowAdd(x, 0x3FFFFFFFFFFFFFFFFFFFFFFFFFFFFFFFFFFFFFFFFFFFFFFFFFC000000000000, 0x3FFFFFFFFFFFF);
    assert Elem(b) == FPow(x, 0x3FFFFFFFFFFFFFFFFFFFFFFFFFFFFFFFFFFFFFFFFFFFFFFFFFFFFFFFFFFFFFF);
  }

  // z^(p - 2), for every z, also when out and z are the same limbs.
  method Invert(out: array<u64>, z: array<u64>)
    requires out.Length == 5 && Below(z, TWO_54)
    modifies out
    ensures Tight(out)
    ensures Elem(out) == FPow(old(Elem(z)), P - 2)
  {
    hide Val5, FPow, FMul, Pow2;
    ghost var x := Elem(z);
    var a := new u64[5];
    var b := new u64[5];
    Pow2Values();
    Pow11PowTwo250(a, b, z);
    SquareN(b, b, 5);
    ChainSquare(x, 0x3FFFFFFFFFFFFFFFFFFFFFFFFFFFFFFFFFFFFFFFFFFFFFFFFFFFFFFFFFFFFFF, 5,
                0x7FFFFFFFFFFFFFFFFFFFFFFFFFFFFFFFFFFFFFFFFFFFFFFFFFFFFFFFFFFFFFE0);
    Mul(out, b, a);
    FPowAdd(x, 0x7FFFFFFFFFFFFFFFFFFFFFFFFFFFFFFFFFFFFFFFFFFFFFFFFFFFFFFFFFFFFFE0, 11);
  }

  // z^((p - 5) / 8)
  method PowTwo252m3(out: array<u64>, z: array<u64>)
    requires out.Length == 5 && Below(z, TWO_54)
    modifies out
    ensures Tight(out)
    ensures Elem(out) == FPow(old(Elem(z)), (P - 5) / 8)
  {
    hide Val5, FPow, FMul, Pow2;
    ghost var x := Elem(z);
    var a := new u64[5];
    var b := new u64[5];
    Pow2Values();
    ChainStart(x);
    Pow11PowTwo250(a, b, z);
    SquareN(b, b, 2);
    ChainSquare(x, 0x3FFFFFFFFFFFFFFFFFFFFFFFFFFFFFFFFFFFFFFFFFFFFFFFFFFFFFFFFFFFFFF, 2,
                0xFFFFFFFFFFFFFFFFFFFFFFFFFFFFFFFFFFFFFFFFFFFFFFFFFFFFFFFFFFFFFFC);
    Mul(out, b, z);
    FPowAdd(x, 0xFFFFFFFFFFFFFFFFFFFFFFFFFFFFFFFFFFFFFFFFFFFFFFFFFFFFFFFFFFFFFFC, 1);
  }
}
