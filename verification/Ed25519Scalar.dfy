/** Scalars modulo the group order of Ed25519, in five 56-bit limbs: the `ed25519_modm` functions of
    hc/core/hc/crypto/ed25519.c, with Barrett reduction of numbers below 2^512. */
module Ed25519Scalar {
  import opened Words

  // The group order m, and mu = floor(2^512 / m).
  const M: int := 0x1000000000000000000000000000000014DEF9DEA2F79CD65812631A5CF5D3ED
  const MU: int := 0xFFFFFFFFFFFFFFFFFFFFFFFFFFFFFFFEB2106215D086329A7ED9CE5A30A2C131B

  lemma Constants()
    ensures M == S5(0x12631A5CF5D3ED, 0xF9DEA2F79CD658, 0x14DE, 0x0, 0x10000000)
    ensures MU == S5(0x9CE5A30A2C131B, 0x215D086329A7ED, 0xFFFFFFFFEB2106, 0xFFFFFFFFFFFFFF, 0xFFFFFFFFF)
    ensures MU == TWO_512 / M
  {
    DivModUnique(TWO_512, M, MU, 0x399411B7C309A3DCEEC73D217F5BE65D00E1BA768859347A40611E3449C0F01);
  }

  function S5(a0: int, a1: int, a2: int, a3: int, a4: int): int {
    a0 + a1 * 0x100_0000_0000_0000 +
    a2 * 0x1_0000_0000_0000_0000_0000_0000_0000 +
    a3 * 0x100_0000_0000_0000_0000_0000_0000_0000_0000_0000_0000 +
    a4 * 0x1_0000_0000_0000_0000_0000_0000_0000_0000_0000_0000_0000_0000_0000_0000
  }

  ghost function Val(a: array<u64>): int
    requires a.Length == 5
    reads a
  {
    S5(a[0], a[1], a[2], a[3], a[4])
  }

  // Limbs of a number below 2^256, or 2^264 with a 40-bit top limb.
  ghost predicate Limbs(a: array<u64>, top: int)
    reads a
  {
    a.Length == 5 && a[0] < TWO_56 && a[1] < TWO_56 && a[2] < TWO_56 && a[3] < TWO_56 && a[4] < top
  }

  // `c & 0xffffffffffffff`, `c >> 56`, `(c >> 40) & 0xffff`, `(c << 16) & 0xffffffffffffff`, `c & 0xffffffffff`.

  function Lo56(x: int): int {
    x % TWO_56
  }

  function Hi56(x: int): int {
    x / TWO_56
  }

  function Mid16(x: int): int {
    x / TWO_40 % 0x10000
  }

  function Up16(x: int): int {
    x * 0x10000 % TWO_56
  }

  function Lo40(x: int): int {
    x % TWO_40
  }

  lemma Split56(x: int)
    requires x >= 0
    ensures x == Lo56(x) + TWO_56 * Hi56(x) && 0 <= Lo56(x) < TWO_56 && Hi56(x) >= 0
  {
  }

  lemma Split40(x: int)
    requires x >= 0
    ensures x == Lo40(x) + TWO_40 * Mid16(x) + TWO_56 * Hi56(x)
    ensures 0 <= Lo40(x) < TWO_40 && 0 <= Mid16(x) < 0x10000 && Hi56(x) >= 0
    ensures Up16(x) == 0x10000 * Lo40(x)
    ensures x / TWO_40 == Mid16(x) + 0x10000 * Hi56(x)
  {
    DivDiv(x, TWO_40, 0x10000);
    DivModUnique(x * 0x10000, TWO_56, x / TWO_40, x % TWO_40 * 0x10000);
  }

  // mu * q column by column.
  lemma QuotientColumns(q0: int, q1: int, q2: int, q3: int, q4: int)
    ensures MU * S5(q0, q1, q2, q3, q4) ==
            Mul128(0x9CE5A30A2C131B, q0) +
            (Mul128(0x9CE5A30A2C131B, q1) + Mul128(0x215D086329A7ED, q0)) * TWO_56 +
            (Mul128(0x9CE5A30A2C131B, q2) + Mul128(0xFFFFFFFFEB2106, q0) + Mul128(0x215D086329A7ED, q1)) * TWO_112 +
            (Mul128(0x9CE5A30A2C131B, q3) + Mul128(0xFFFFFFFFFFFFFF, q0) + Mul128(0x215D086329A7ED, q2) +
             Mul128(0xFFFFFFFFEB2106, q1)) * TWO_168 +
            (Mul128(0x9CE5A30A2C131B, q4) + Mul128(0xFFFFFFFFF, q0) + Mul128(0xFFFFFFFFFFFFFF, q1) +
             Mul128(0x215D086329A7ED, q3) + Mul128(0xFFFFFFFFEB2106, q2)) * TWO_224 +
            (Mul128(0xFFFFFFFFF, q1) + Mul128(0x215D086329A7ED, q4) + Mul128(0xFFFFFFFFEB2106, q3) +
             Mul128(0xFFFFFFFFFFFFFF, q2)) * TWO_280 +
            (Mul128(0xFFFFFFFFF, q2) + Mul128(0xFFFFFFFFEB2106, q4) + Mul128(0xFFFFFFFFFFFFFF, q3)) * TWO_336 +
            (Mul128(0xFFFFFFFFF, q3) + Mul128(0xFFFFFFFFFFFFFF, q4)) * TWO_392 +
            (Mul128(0xFFFFFFFFF, q4)) * TWO_448
  {
  }

  // The three columns that are never computed are worth less than 2^226.
  lemma DroppedColumns(q0: int, q1: int, q2: int, q3: int, q4: int)
    requires 0 <= q0 < TWO_56 && 0 <= q1 < TWO_56 && 0 <= q2 < TWO_56 && 0 <= q3 < TWO_56 && 0 <= q4 < TWO_56
    ensures 0 <= Mul128(0x9CE5A30A2C131B, q0) +
            (Mul128(0x9CE5A30A2C131B, q1) + Mul128(0x215D086329A7ED, q0)) * TWO_56 +
            (Mul128(0x9CE5A30A2C131B, q2) + Mul128(0xFFFFFFFFEB2106, q0) + Mul128(0x215D086329A7ED, q1)) *
              TWO_112 < TWO_226
  {
  }

  // Reassembling the shifted column sums: q3 is everything from bit 96 up of the columns that were computed.
  lemma QuotientIdentity(k3: int, k4: int, k5: int, k6: int, k7: int, k8: int,
                         l3: int, h3: int, l4: int, m4: int, h4: int, l5: int, m5: int, h5: int, l6: int, m6: int,
                           h6: int,
                         l7: int, m7: int, h7: int, l8: int, m8: int, h8: int)
    requires k3 == l3 + TWO_56 * h3 && h3 + k4 == l4 + TWO_40 * m4 + TWO_56 * h4
    requires h4 + k5 == l5 + TWO_40 * m5 + TWO_56 * h5 && h5 + k6 == l6 + TWO_40 * m6 + TWO_56 * h6
    requires h6 + k7 == l7 + TWO_40 * m7 + TWO_56 * h7 && h7 + k8 == l8 + TWO_40 * m8 + TWO_56 * h8
    ensures k3 + k4 * TWO_56 + k5 * TWO_112 + k6 * TWO_168 + k7 * TWO_224 + k8 * TWO_280 ==
            TWO_96 * S5(m4 + 0x10000 * l5, m5 + 0x10000 * l6, m6 + 0x10000 * l7, m7 + 0x10000 * l8, m8 + 0x10000 * h8) +
            l3 + TWO_56 * l4
  {
  }

  ghost predicate QuotientInRange(q: int, q3: int) {
    TWO_264 * q3 <= MU * q && MU * q < TWO_264 * (q3 + 1) + TWO_226
  }

  // The column sums as the code accumulates them, with every cast shown to be lossless.
  lemma QuotientCarries(k3: int, k4: int, k5: int, k6: int, k7: int, k8: int)
    requires 0 <= k3 < TWO_115 && 0 <= k4 < TWO_115 && 0 <= k5 < TWO_115
    requires 0 <= k6 < TWO_115 && 0 <= k7 < TWO_115 && 0 <= k8 < TWO_76
    ensures var c4 := Hi56(k3) + k4;
            var c5 := Hi56(c4) + k5;
            var c6 := Hi56(c5) + k6;
            var c7 := Hi56(c6) + k7;
            var c8 := Hi56(c7) + k8;
            0 <= c4 < TWO_120 && 0 <= c5 < TWO_120 && 0 <= c6 < TWO_120 && 0 <= c7 < TWO_120 && 0 <= c8 < TWO_78 &&
            0 <= Hi56(k3) < TWO_64 && 0 <= Hi56(c4) < TWO_64 && 0 <= Hi56(c5) < TWO_64 &&
            0 <= Hi56(c6) < TWO_64 && 0 <= Hi56(c7) < TWO_64 && 0 <= c8 / TWO_40 < TWO_38 &&
            0 <= Mid16(c4) < 0x10000 && 0 <= Mid16(c5) < 0x10000 && 0 <= Mid16(c6) < 0x10000 &&
            0 <= Mid16(c7) < 0x10000 &&
            0 <= Mid16(c4) + Up16(c5) < TWO_56 && 0 <= Mid16(c5) + Up16(c6) < TWO_56 &&
            0 <= Mid16(c6) + Up16(c7) < TWO_56 && 0 <= Mid16(c7) + Up16(c8) < TWO_56 &&
            0 <= k3 + k4 * TWO_56 + k5 * TWO_112 + k6 * TWO_168 + k7 * TWO_224 + k8 * TWO_280 -
                 TWO_96 * S5(Mid16(c4) + Up16(c5), Mid16(c5) + Up16(c6), Mid16(c6) + Up16(c7), Mid16(c7) + Up16(c8),
                             c8 / TWO_40) < TWO_96
  {
    hide Lo56, Hi56, Mid16, Up16, Lo40, S5;
    var c4 := Hi56(k3) + k4;
    var c5 := Hi56(c4) + k5;
    var c6 := Hi56(c5) + k6;
    var c7 := Hi56(c6) + k7;
    var c8 := Hi56(c7) + k8;
    Split56(k3);
    Split40(c4);
    Split40(c5);
    Split40(c6);
    Split40(c7);
    Split40(c8);
    QuotientIdentity(k3, k4, k5, k6, k7, k8,
                     Lo56(k3), Hi56(k3), Lo40(c4), Mid16(c4), Hi56(c4), Lo40(c5), Mid16(c5), Hi56(c5),
                     Lo40(c6), Mid16(c6), Hi56(c6), Lo40(c7), Mid16(c7), Hi56(c7), Lo40(c8), Mid16(c8), Hi56(c8));
  }

  lemma QuotientColumnBounds(q0: int, q1: int, q2: int, q3: int, q4: int)
    requires 0 <= q0 < TWO_56 && 0 <= q1 < TWO_56 && 0 <= q2 < TWO_56 && 0 <= q3 < TWO_56 && 0 <= q4 < TWO_40
    ensures 0 <= Mul128(0x9CE5A30A2C131B, q3) + Mul128(0xFFFFFFFFFFFFFF, q0) + Mul128(0x215D086329A7ED, q2) +
            Mul128(0xFFFFFFFFEB2106, q1) < TWO_115
    ensures 0 <= Mul128(0x9CE5A30A2C131B, q4) + Mul128(0xFFFFFFFFF, q0) + Mul128(0xFFFFFFFFFFFFFF, q1) +
            Mul128(0x215D086329A7ED, q3) + Mul128(0xFFFFFFFFEB2106, q2) < TWO_115
    ensures 0 <= Mul128(0xFFFFFFFFF, q1) + Mul128(0x215D086329A7ED, q4) + Mul128(0xFFFFFFFFEB2106, q3) +
            Mul128(0xFFFFFFFFFFFFFF, q2) < TWO_115
    ensures 0 <= Mul128(0xFFFFFFFFF, q2) + Mul128(0xFFFFFFFFEB2106, q4) + Mul128(0xFFFFFFFFFFFFFF, q3) < TWO_115
    ensures 0 <= Mul128(0xFFFFFFFFF, q3) + Mul128(0xFFFFFFFFFFFFFF, q4) < TWO_115
    ensures 0 <= Mul128(0xFFFFFFFFF, q4) < TWO_76
  {
  }

  // From the columns to the classical bound: q3 is at most one below floor(mu * q / 2^264).
  lemma QuotientBound(q: int, q3: int, computed: int, dropped: int)
    requires MU * q == dropped + TWO_168 * computed && 0 <= dropped < TWO_226
    requires 0 <= computed - TWO_96 * q3 < TWO_96
    ensures QuotientInRange(q, q3)
  {
  }

  // Barrett's bound with the dropped columns: two conditional subtractions are enough.
  lemma BarrettBound(x: int, q3: int)
    requires 0 <= x < TWO_512 && QuotientInRange(x / TWO_248, q3)
    ensures 0 <= x - q3 * M < 3 * M
  {
    var q, low := x / TWO_248, x % TWO_248;
    assert x == q * TWO_248 + low && 0 <= low < TWO_248 && q < TWO_264;
    assert TWO_264 * q3 * M <= MU * q * M;
    assert MU * q * M <= TWO_512 * q;
    assert TWO_264 * (q3 * M) <= TWO_264 * (x - low);
    assert MU * q * M < (TWO_264 * (q3 + 1) + TWO_226) * M;
    assert MU * q * M == TWO_512 * q - 0x399411B7C309A3DCEEC73D217F5BE65D00E1BA768859347A40611E3449C0F01 * q;
    assert 0x399411B7C309A3DCEEC73D217F5BE65D00E1BA768859347A40611E3449C0F01 * q
        <= 0x399411B7C309A3DCEEC73D217F5BE65D00E1BA768859347A40611E3449C0F01 * TWO_264;
  }

  // Low half of m * q3.

  lemma ProductColumns(q0: int, q1: int, q2: int, q3: int, q4: int)
    ensures M * S5(q0, q1, q2, q3, q4) ==
            Mul128(0x12631A5CF5D3ED, q0) +
            (Mul128(0x12631A5CF5D3ED, q1) + Mul128(0xF9DEA2F79CD658, q0)) * TWO_56 +
            (Mul128(0x12631A5CF5D3ED, q2) + Mul128(0x14DE, q0) + Mul128(0xF9DEA2F79CD658, q1)) * TWO_112 +
            (Mul128(0x12631A5CF5D3ED, q3) + Mul128(0x0, q0) + Mul128(0xF9DEA2F79CD658, q2) + Mul128(0x14DE, q1)) *
              TWO_168 +
            (Mul128(0x12631A5CF5D3ED, q4) + Mul128(0x10000000, q0) + Mul128(0x0, q1) + Mul128(0xF9DEA2F79CD658, q3) +
             Mul128(0x14DE, q2)) * TWO_224 +
            TWO_280 * (Mul128(0x10000000, q1) + Mul128(0xF9DEA2F79CD658, q4) + Mul128(0x14DE, q3) + Mul128(0x0, q2) +
                           (Mul128(0x10000000, q2) + Mul128(0x14DE, q4) + Mul128(0x0, q3)) * TWO_56 +
                           (Mul128(0x10000000, q3) + Mul128(0x0, q4)) * TWO_112 +
                           (Mul128(0x10000000, q4)) * TWO_168)
  {
  }

  lemma ProductColumnBounds(q0: int, q1: int, q2: int, q3: int, q4: int)
    requires 0 <= q0 < TWO_56 && 0 <= q1 < TWO_56 && 0 <= q2 < TWO_56 && 0 <= q3 < TWO_56 && 0 <= q4 < TWO_56
    ensures 0 <= Mul128(0x12631A5CF5D3ED, q0) < TWO_115
    ensures 0 <= Mul128(0x12631A5CF5D3ED, q1) + Mul128(0xF9DEA2F79CD658, q0) < TWO_115
    ensures 0 <= Mul128(0x12631A5CF5D3ED, q2) + Mul128(0x14DE, q0) + Mul128(0xF9DEA2F79CD658, q1) < TWO_115
    ensures 0 <= Mul128(0x12631A5CF5D3ED, q3) + Mul128(0x0, q0) + Mul128(0xF9DEA2F79CD658, q2) +
            Mul128(0x14DE, q1) < TWO_115
    ensures 0 <= Mul128(0x12631A5CF5D3ED, q4) + Mul128(0x10000000, q0) + Mul128(0x0, q1) +
            Mul128(0xF9DEA2F79CD658, q3) + Mul128(0x14DE, q2) < TWO_115
  {
  }

  // Five accumulated columns, reduced modulo 2^264.
  lemma LowCarries(k0: int, k1: int, k2: int, k3: int, k4: int)
    requires 0 <= k0 < TWO_115 && 0 <= k1 < TWO_115 && 0 <= k2 < TWO_115
    requires 0 <= k3 < TWO_115 && 0 <= k4 < TWO_115
    ensures var c1 := Hi56(k0) + k1;
            var c2 := Hi56(c1) + k2;
            var c3 := Hi56(c2) + k3;
            var c4 := Hi56(c3) + k4;
            0 <= c1 < TWO_120 && 0 <= c2 < TWO_120 && 0 <= c3 < TWO_120 && 0 <= c4 < TWO_120 &&
            0 <= Hi56(k0) < TWO_64 && 0 <= Hi56(c1) < TWO_64 && 0 <= Hi56(c2) < TWO_64 && 0 <= Hi56(c3) < TWO_64 &&
            0 <= Lo56(k0) < TWO_56 && 0 <= Lo56(c1) < TWO_56 && 0 <= Lo56(c2) < TWO_56 && 0 <= Lo56(c3) < TWO_56 &&
            0 <= Lo40(c4) < TWO_40 &&
            k0 + k1 * TWO_56 + k2 * TWO_112 + k3 * TWO_168 + k4 * TWO_224 ==
            S5(Lo56(k0), Lo56(c1), Lo56(c2), Lo56(c3), Lo40(c4)) + TWO_264 * (c4 / TWO_40)
  {
    hide Lo56, Hi56, Mid16, Up16, Lo40;
    var c1 := Hi56(k0) + k1;
    var c2 := Hi56(c1) + k2;
    var c3 := Hi56(c2) + k3;
    var c4 := Hi56(c3) + k4;
    Split56(k0);
    Split56(c1);
    Split56(c2);
    Split56(c3);
    Split40(c4);
  }

  // Subtraction with borrow: `b = (x - y) >> 63` and `x - y + (b << w)` in wrapping 64-bit arithmetic.

  function Borrow(x: int, y: int): int {
    (x - y) % TWO_64 / TWO_63
  }

  function SubWord(x: int, y: int, b: int): int {
    (x - y + b) % TWO_64
  }

  lemma BorrowStep(x: int, y: int)
    requires 0 <= x <= TWO_56 && 0 <= y <= TWO_56
    ensures Borrow(x, y) == if x < y then 1 else 0
    ensures x < TWO_56 ==> SubWord(x, y, Borrow(x, y) * TWO_56) == x - y + Borrow(x, y) * TWO_56
    ensures x < TWO_40 && y <= TWO_40 ==> SubWord(x, y, Borrow(x, y) * TWO_40) == x - y + Borrow(x, y) * TWO_40
    ensures x >= y ==> SubWord(x, y, 0) == x - y
  {
    if x < y {
      DivModUnique(x - y, TWO_64, -1, x - y + TWO_64);
    }
  }

  lemma BorrowIdentity(r0: int, r1: int, r2: int, r3: int, r4: int, p0: int, p1: int, p2: int, p3: int, p4: int,
                       b0: int, b1: int, b2: int, b3: int)
    ensures S5(r0 - p0 + b0 * TWO_56, r1 - (b0 + p1) + b1 * TWO_56, r2 - (b1 + p2) + b2 * TWO_56,
               r3 - (b2 + p3) + b3 * TWO_56, r4 - (b3 + p4)) == S5(r0, r1, r2, r3, r4) - S5(p0, p1, p2, p3, p4)
  {
  }

  lemma SignOfTop(t0: int, t1: int, t2: int, t3: int, t4: int)
    requires 0 <= t0 < TWO_56 && 0 <= t1 < TWO_56 && 0 <= t2 < TWO_56 && 0 <= t3 < TWO_56
    ensures S5(t0, t1, t2, t3, t4) < 0 <==> t4 < 0
  {
  }

  lemma BorrowChain(r0: int, r1: int, r2: int, r3: int, r4: int, p0: int, p1: int, p2: int, p3: int, p4: int)
    requires 0 <= r0 < TWO_56 && 0 <= r1 < TWO_56 && 0 <= r2 < TWO_56 && 0 <= r3 < TWO_56 && 0 <= r4 < TWO_56
    requires 0 <= p0 < TWO_56 && 0 <= p1 < TWO_56 && 0 <= p2 < TWO_56 && 0 <= p3 < TWO_56 && 0 <= p4 < TWO_56
    ensures var b0 := Borrow(r0, p0);
            var b1 := Borrow(r1, b0 + p1);
            var b2 := Borrow(r2, b1 + p2);
            var b3 := Borrow(r3, b2 + p3);
            var b4 := Borrow(r4, b3 + p4);
            var t0, t1 := SubWord(r0, p0, b0 * TWO_56), SubWord(r1, b0 + p1, b1 * TWO_56);
            var t2, t3 := SubWord(r2, b1 + p2, b2 * TWO_56), SubWord(r3, b2 + p3, b3 * TWO_56);
            0 <= b0 <= 1 && 0 <= b1 <= 1 && 0 <= b2 <= 1 && 0 <= b3 <= 1 &&
            0 <= t0 < TWO_56 && 0 <= t1 < TWO_56 && 0 <= t2 < TWO_56 && 0 <= t3 < TWO_56 &&
            b4 == (if S5(r0, r1, r2, r3, r4) < S5(p0, p1, p2, p3, p4) then 1 else 0) &&
            S5(t0, t1, t2, t3, r4 - (b3 + p4)) == S5(r0, r1, r2, r3, r4) - S5(p0, p1, p2, p3, p4)
  {
    hide Borrow, SubWord, S5;
    BorrowStep(r0, p0);
    var b0 := Borrow(r0, p0);
    BorrowStep(r1, b0 + p1);
    var b1 := Borrow(r1, b0 + p1);
    BorrowStep(r2, b1 + p2);
    var b2 := Borrow(r2, b1 + p2);
    BorrowStep(r3, b2 + p3);
    var b3 := Borrow(r3, b2 + p3);
    BorrowStep(r4, b3 + p4);
    var t0, t1 := SubWord(r0, p0, b0 * TWO_56), SubWord(r1, b0 + p1, b1 * TWO_56);
    var t2, t3 := SubWord(r2, b1 + p2, b2 * TWO_56), SubWord(r3, b2 + p3, b3 * TWO_56);
    BorrowIdentity(r0, r1, r2, r3, r4, p0, p1, p2, p3, p4, b0, b1, b2, b3);
    SignOfTop(t0, t1, t2, t3, r4 - (b3 + p4));
  }

  // Subtract m once if the value is not below it.
  method Reduce(r: array<u64>)
    requires Limbs(r, TWO_56)
    modifies r
    ensures Limbs(r, old(r[4]) + 1)
    ensures Val(r) == if old(Val(r)) < M then old(Val(r)) else old(Val(r)) - M
  {
    hide S5, Borrow, SubWord, And, Xor;
    Constants();
    BorrowChain(r[0], r[1], r[2], r[3], r[4], 0x12631A5CF5D3ED, 0xF9DEA2F79CD658, 0x14DE, 0x0, 0x10000000);
    var pb: int := 0x12631A5CF5D3ED;
    var b: int := Borrow(r[0], pb);
    var t0: u64 := SubWord(r[0], pb, b * TWO_56);
    pb := b + 0xF9DEA2F79CD658;
    b := Borrow(r[1], pb);
    var t1: u64 := SubWord(r[1], pb, b * TWO_56);
    pb := b + 0x14DE;
    b := Borrow(r[2], pb);
    var t2: u64 := SubWord(r[2], pb, b * TWO_56);
    pb := b + 0x0;
    b := Borrow(r[3], pb);
    var t3: u64 := SubWord(r[3], pb, b * TWO_56);
    pb := b + 0x10000000;
    b := Borrow(r[4], pb);
    BorrowStep(r[4], pb);
    SubWordRange(r[4], pb, b * TWO_32);
    var t4: u64 := SubWord(r[4], pb, b * TWO_32);

    var mask: u64 := (b - 1) % TWO_64;
    Select64(r[0], t0);
    Select64(r[1], t1);
    Select64(r[2], t2);
    Select64(r[3], t3);
    Select64(r[4], t4);
    r[0] := Xor(r[0], And(mask, Xor(r[0], t0)));
    r[1] := Xor(r[1], And(mask, Xor(r[1], t1)));
    r[2] := Xor(r[2], And(mask, Xor(r[2], t2)));
    r[3] := Xor(r[3], And(mask, Xor(r[3], t3)));
    r[4] := Xor(r[4], And(mask, Xor(r[4], t4)));
  }

  lemma SubWordRange(x: int, y: int, b: int)
    ensures 0 <= SubWord(x, y, b) < TWO_64
  {
  }

  // Lines 63-84: the quotient estimate q3.
  method EstimateQuotient(q: array<u64>) returns (e0: u64, e1: u64, e2: u64, e3: u64, e4: u64)
    requires Limbs(q, TWO_40)
    ensures e0 < TWO_56 && e1 < TWO_56 && e2 < TWO_56 && e3 < TWO_56 && e4 < TWO_40
    ensures QuotientInRange(Val(q), S5(e0, e1, e2, e3, e4))
  {
    hide S5, Mul128, Hi56, Mid16, Up16, QuotientInRange;
    var q0, q1, q2, q3, q4 := q[0], q[1], q[2], q[3], q[4];
    QuotientColumnBounds(q0, q1, q2, q3, q4);
    QuotientColumns(q0, q1, q2, q3, q4);
    DroppedColumns(q0, q1, q2, q3, q4);
    var c: u128 := Mul128(0x9CE5A30A2C131B, q3) + Mul128(0xFFFFFFFFFFFFFF, q0) + Mul128(0x215D086329A7ED, q2) +
        Mul128(0xFFFFFFFFEB2106, q1);
    ghost var k3 := c;
    ghost var k4 := Mul128(0x9CE5A30A2C131B, q4) + Mul128(0xFFFFFFFFF, q0) + Mul128(0xFFFFFFFFFFFFFF, q1) +
                    Mul128(0x215D086329A7ED, q3) + Mul128(0xFFFFFFFFEB2106, q2);
    ghost var k5 := Mul128(0xFFFFFFFFF, q1) + Mul128(0x215D086329A7ED, q4) + Mul128(0xFFFFFFFFEB2106, q3) +
                    Mul128(0xFFFFFFFFFFFFFF, q2);
    ghost var k6 := Mul128(0xFFFFFFFFF, q2) + Mul128(0xFFFFFFFFEB2106, q4) + Mul128(0xFFFFFFFFFFFFFF, q3);
    ghost var k7, k8 := Mul128(0xFFFFFFFFF, q3) + Mul128(0xFFFFFFFFFFFFFF, q4), Mul128(0xFFFFFFFFF, q4);
    QuotientCarries(k3, k4, k5, k6, k7, k8);
    var carry: u64 := Hi56(c);
    c := carry + (Mul128(0x9CE5A30A2C131B, q4) + Mul128(0xFFFFFFFFF, q0) + Mul128(0xFFFFFFFFFFFFFF, q1) +
                  Mul128(0x215D086329A7ED, q3) + Mul128(0xFFFFFFFFEB2106, q2));
    e0 := Mid16(c);

    carry := Hi56(c);
    c := carry + (Mul128(0xFFFFFFFFF, q1) + Mul128(0x215D086329A7ED, q4) + Mul128(0xFFFFFFFFEB2106, q3) +
                  Mul128(0xFFFFFFFFFFFFFF, q2));
    e0 := e0 + Up16(c);
    e1 := Mid16(c);

    carry := Hi56(c);
    c := carry + (Mul128(0xFFFFFFFFF, q2) + Mul128(0xFFFFFFFFEB2106, q4) + Mul128(0xFFFFFFFFFFFFFF, q3));
    e1 := e1 + Up16(c);
    e2 := Mid16(c);

    carry := Hi56(c);
    c := carry + (Mul128(0xFFFFFFFFF, q3) + Mul128(0xFFFFFFFFFFFFFF, q4));
    e2 := e2 + Up16(c);
    e3 := Mid16(c);

    carry := Hi56(c);
    c := carry + (Mul128(0xFFFFFFFFF, q4));
    e3 := e3 + Up16(c);
    e4 := c / TWO_40;
    QuotientBound(S5(q0, q1, q2, q3, q4), S5(e0, e1, e2, e3, e4),
                  k3 + k4 * TWO_56 + k5 * TWO_112 + k6 * TWO_168 + k7 * TWO_224 + k8 * TWO_280,
                  Mul128(0x9CE5A30A2C131B, q0) +
                    (Mul128(0x9CE5A30A2C131B, q1) + Mul128(0x215D086329A7ED, q0)) * TWO_56 +
                      (Mul128(0x9CE5A30A2C131B, q2) + Mul128(0xFFFFFFFFEB2106, q0) + Mul128(0x215D086329A7ED, q1)) *
                        TWO_112);
  }

  // Lines 86-99: r2 = m * q3 modulo 2^264.
  method LowProduct(q0: u64, q1: u64, q2: u64, q3: u64, q4: u64)
    returns (r0: u64, r1: u64, r2: u64, r3: u64, r4: u64, ghost high: int)
    requires q0 < TWO_56 && q1 < TWO_56 && q2 < TWO_56 && q3 < TWO_56 && q4 < TWO_56
    ensures r0 < TWO_56 && r1 < TWO_56 && r2 < TWO_56 && r3 < TWO_56 && r4 < TWO_40
    ensures M * S5(q0, q1, q2, q3, q4) == S5(r0, r1, r2, r3, r4) + TWO_264 * high
  {
    hide S5, Mul128, Lo56, Hi56, Lo40;
    ProductColumnBounds(q0, q1, q2, q3, q4);
    ProductColumns(q0, q1, q2, q3, q4);
    var c: u128 := Mul128(0x12631A5CF5D3ED, q0);
    LowCarries(c, Mul128(0x12631A5CF5D3ED, q1) + Mul128(0xF9DEA2F79CD658, q0),
               Mul128(0x12631A5CF5D3ED, q2) + Mul128(0x14DE, q0) + Mul128(0xF9DEA2F79CD658, q1),
               Mul128(0x12631A5CF5D3ED, q3) + Mul128(0x0, q0) + Mul128(0xF9DEA2F79CD658, q2) + Mul128(0x14DE, q1),
               Mul128(0x12631A5CF5D3ED, q4) + Mul128(0x10000000, q0) + Mul128(0x0, q1) + Mul128(0xF9DEA2F79CD658, q3) +
                 Mul128(0x14DE, q2));
    r0 := Lo56(c);
    var carry: u64 := Hi56(c);
    c := carry + (Mul128(0x12631A5CF5D3ED, q1) + Mul128(0xF9DEA2F79CD658, q0));
    r1 := Lo56(c);
    carry := Hi56(c);
    c := carry + (Mul128(0x12631A5CF5D3ED, q2) + Mul128(0x14DE, q0) + Mul128(0xF9DEA2F79CD658, q1));
    r2 := Lo56(c);
    carry := Hi56(c);
    c := carry + (Mul128(0x12631A5CF5D3ED, q3) + Mul128(0x0, q0) + Mul128(0xF9DEA2F79CD658, q2) + Mul128(0x14DE, q1));
    r3 := Lo56(c);
    carry := Hi56(c);
    c := carry + (Mul128(0x12631A5CF5D3ED, q4) + Mul128(0x10000000, q0) + Mul128(0x0, q1) +
                  Mul128(0xF9DEA2F79CD658, q3) + Mul128(0x14DE, q2));
    r4 := Lo40(c);
    high := c / TWO_40 +
            0x10000 * (Mul128(0x10000000, q1) + Mul128(0xF9DEA2F79CD658, q4) + Mul128(0x14DE, q3) + Mul128(0x0, q2) +
                       (Mul128(0x10000000, q2) + Mul128(0x14DE, q4) + Mul128(0x0, q3)) * TWO_56 +
                       (Mul128(0x10000000, q3) + Mul128(0x0, q4)) * TWO_112 +
                       (Mul128(0x10000000, q4)) * TWO_168);
  }

  lemma WrappedDifference(x: int, q3: int, r1: int, r2: int, high: int, b: int, r: int)
    requires 0 <= x && r1 == x % TWO_264 && M * q3 == r2 + TWO_264 * high
    requires r == r1 - r2 + b * TWO_264 && 0 <= r < TWO_264
    requires 0 <= x - q3 * M < 3 * M
    ensures r == x - q3 * M
  {
    var d := x - q3 * M;
    assert d == r + TWO_264 * (x / TWO_264 - high - b);
    DivModUnique(d, TWO_264, x / TWO_264 - high - b, r);
    DivModUnique(d, TWO_264, 0, d);
  }

  lemma TopLimb(r0: int, r1: int, r2: int, r3: int, r4: int, x: int)
    requires 0 <= r0 < TWO_56 && 0 <= r1 < TWO_56 && 0 <= r2 < TWO_56 && 0 <= r3 < TWO_56 && 0 <= r4 < TWO_40 &&
             S5(r0, r1, r2, r3, r4) < x
    ensures TWO_224 * r4 < x
    ensures 0 <= S5(r0, r1, r2, r3, r4) < TWO_264
  {
  }

  lemma TwoSubtractions(x: int, q3: int, r: int)
    requires r == x - q3 * M && 0 <= r < 3 * M
    ensures (if (if r < M then r else r - M) < M then (if r < M then r else r - M)
             else (if r < M then r else r - M) - M) == x % M
  {
    var k := if r < M then 0 else if r - M < M then 1 else 2;
    DivModUnique(x, M, q3 + k, r - k * M);
  }

  // x modulo m, from q1 = x >> 248 and r1 = x modulo 2^264; r may be the same limbs as r1.
  method BarrettReduce(r: array<u64>, q1: array<u64>, r1: array<u64>, ghost x: int)
    requires r.Length == 5 && Limbs(q1, TWO_40) && Limbs(r1, TWO_40) && 0 <= x < TWO_512
    requires Val(q1) == x / TWO_248 && Val(r1) == x % TWO_264
    modifies r
    ensures Limbs(r, TWO_32)
    ensures Val(r) == x % M
  {
    hide S5, Borrow, SubWord, QuotientInRange;
    var e0, e1, e2, e3, e4 := EstimateQuotient(q1);
    var p0, p1, p2, p3, p4, high := LowProduct(e0, e1, e2, e3, e4);
    ghost var q3, a := S5(e0, e1, e2, e3, e4), Val(r1);
    BarrettBound(x, q3);
    BorrowChain(r1[0], r1[1], r1[2], r1[3], r1[4], p0, p1, p2, p3, p4);

    var pb: int := p0;
    var b: int := Borrow(r1[0], pb);
    r[0] := SubWord(r1[0], pb, b * TWO_56);
    pb := b + p1;
    b := Borrow(r1[1], pb);
    r[1] := SubWord(r1[1], pb, b * TWO_56);
    pb := b + p2;
    b := Borrow(r1[2], pb);
    r[2] := SubWord(r1[2], pb, b * TWO_56);
    pb := b + p3;
    b := Borrow(r1[3], pb);
    r[3] := SubWord(r1[3], pb, b * TWO_56);
    pb := b + p4;
    b := Borrow(r1[4], pb);
    BorrowStep(r1[4], pb);
    ghost var top := r1[4] - pb;
    r[4] := SubWord(r1[4], pb, b * TWO_40);

    ShiftTop(r[0], r[1], r[2], r[3], top, b);
    TopLimb(r[0], r[1], r[2], r[3], r[4], Val(r) + 1);
    WrappedDifference(x, q3, a, S5(p0, p1, p2, p3, p4), high, b, Val(r));
    TopLimb(r[0], r[1], r[2], r[3], r[4], 3 * M);
    TwoSubtractions(x, q3, Val(r));
    Reduce(r);
    Reduce(r);
  }

  lemma ShiftTop(t0: int, t1: int, t2: int, t3: int, t4: int, b: int)
    ensures S5(t0, t1, t2, t3, t4 + b * TWO_40) == S5(t0, t1, t2, t3, t4) + b * TWO_264
  {
  }

  method Add(r: array<u64>, x: array<u64>, y: array<u64>)
    requires r.Length == 5 && Limbs(x, TWO_55) && Limbs(y, TWO_55)
    modifies r
    ensures Limbs(r, TWO_56)
    ensures var sum := old(Val(x)) + old(Val(y)); Val(r) == if sum < M then sum else sum - M
    ensures old(Val(x)) < M && old(Val(y)) < M ==> Val(r) == (old(Val(x)) + old(Val(y))) % M
  {
    hide S5, Lo56, Hi56;
    var x0, x1, x2, x3, x4 := x[0], x[1], x[2], x[3], x[4];
    var y0, y1, y2, y3, y4 := y[0], y[1], y[2], y[3], y[4];
    ghost var sum := Val(x) + Val(y);
    AddCarries(x0, x1, x2, x3, x4, y0, y1, y2, y3, y4);
    var c: u64 := x0 + y0;
    r[0] := Lo56(c);
    c := Hi56(c) + x1 + y1;
    r[1] := Lo56(c);
    c := Hi56(c) + x2 + y2;
    r[2] := Lo56(c);
    c := Hi56(c) + x3 + y3;
    r[3] := Lo56(c);
    r[4] := Hi56(c) + x4 + y4;
    OneSubtraction(old(Val(x)), old(Val(y)));
    NonNegative(x0, x1, x2, x3, x4);
    NonNegative(y0, y1, y2, y3, y4);
    Reduce(r);
  }

  lemma NonNegative(r0: int, r1: int, r2: int, r3: int, r4: int)
    requires 0 <= r0 && 0 <= r1 && 0 <= r2 && 0 <= r3 && 0 <= r4
    ensures S5(r0, r1, r2, r3, r4) >= 0
  {
  }

  lemma OneSubtraction(x: int, y: int)
    ensures 0 <= x < M && 0 <= y < M ==> (x + y) % M == if x + y < M then x + y else x + y - M
  {
    if 0 <= x < M && 0 <= y < M {
      DivModUnique(x + y, M, if x + y < M then 0 else 1, if x + y < M then x + y else x + y - M);
    }
  }

  lemma AddCarries(x0: int, x1: int, x2: int, x3: int, x4: int, y0: int, y1: int, y2: int, y3: int, y4: int)
    requires 0 <= x0 < TWO_56 && 0 <= x1 < TWO_56 && 0 <= x2 < TWO_56 && 0 <= x3 < TWO_56 && 0 <= x4 < TWO_56
    requires 0 <= y0 < TWO_56 && 0 <= y1 < TWO_56 && 0 <= y2 < TWO_56 && 0 <= y3 < TWO_56 && 0 <= y4 < TWO_56
    ensures var c0 := x0 + y0;
            var c1 := Hi56(c0) + x1 + y1;
            var c2 := Hi56(c1) + x2 + y2;
            var c3 := Hi56(c2) + x3 + y3;
            0 <= Hi56(c0) <= 1 && 0 <= Hi56(c1) <= 1 && 0 <= Hi56(c2) <= 1 && 0 <= Hi56(c3) <= 1 &&
            0 <= Lo56(c0) < TWO_56 && 0 <= Lo56(c1) < TWO_56 && 0 <= Lo56(c2) < TWO_56 && 0 <= Lo56(c3) < TWO_56 &&
            S5(Lo56(c0), Lo56(c1), Lo56(c2), Lo56(c3), Hi56(c3) + x4 + y4) ==
            S5(x0, x1, x2, x3, x4) + S5(y0, y1, y2, y3, y4)
  {
    hide Lo56, Hi56;
    var c0 := x0 + y0;
    var c1 := Hi56(c0) + x1 + y1;
    var c2 := Hi56(c1) + x2 + y2;
    var c3 := Hi56(c2) + x3 + y3;
    Split56(c0);
    Split56(c1);
    Split56(c2);
    Split56(c3);
  }

  // The 512-bit product and its two overlapping halves.

  function Mid32(x: int): int {
    x / 0x1000000 % TWO_32
  }

  function Up32(x: int): int {
    x * TWO_32 % TWO_56
  }

  function Lo24(x: int): int {
    x % 0x1000000
  }

  lemma Split24(x: int)
    requires x >= 0
    ensures x == Lo24(x) + 0x1000000 * Mid32(x) + TWO_56 * Hi56(x)
    ensures 0 <= Lo24(x) < 0x1000000 && 0 <= Mid32(x) < TWO_32 && Hi56(x) >= 0
    ensures Up32(x) == TWO_32 * Lo24(x)
    ensures x / 0x1000000 == Mid32(x) + TWO_32 * Hi56(x)
  {
    DivDiv(x, 0x1000000, TWO_32);
    DivModUnique(x * TWO_32, TWO_56, x / 0x1000000, x % 0x1000000 * TWO_32);
  }

  lemma Row(c: int, a0: int, a1: int, a2: int, a3: int, a4: int)
    ensures Mul128(c, S5(a0, a1, a2, a3, a4)) ==
            S5(Mul128(c, a0), Mul128(c, a1), Mul128(c, a2), Mul128(c, a3), Mul128(c, a4))
    ensures Mul128(S5(a0, a1, a2, a3, a4), c) ==
            S5(Mul128(a0, c), Mul128(a1, c), Mul128(a2, c), Mul128(a3, c), Mul128(a4, c))
  {
  }

  lemma GatherColumns(p00: int, p01: int, p02: int, p03: int, p04: int,
                      p10: int, p11: int, p12: int, p13: int, p14: int,
                      p20: int, p21: int, p22: int, p23: int, p24: int,
                      p30: int, p31: int, p32: int, p33: int, p34: int,
                      p40: int, p41: int, p42: int, p43: int, p44: int)
    ensures S5(S5(p00, p01, p02, p03, p04), 
               S5(p10, p11, p12, p13, p14), 
               S5(p20, p21, p22, p23, p24), 
               S5(p30, p31, p32, p33, p34), 
               S5(p40, p41, p42, p43, p44)) ==
            p00 + (p01 + p10) * TWO_56 + (p02 + p20 + p11) * TWO_112 + (p03 + p30 + p12 + p21) * TWO_168 +
            (p04 + p40 + p31 + p13 + p22) * TWO_224 +
            (p41 + p14 + p23 + p32) * TWO_280 +
            (p42 + p24 + p33) * TWO_336 +
            (p43 + p34) * TWO_392 +
            (p44) * TWO_448
  {
  }

  lemma SquareOfColumns(x0: int, x1: int, x2: int, x3: int, x4: int, y0: int, y1: int, y2: int, y3: int, y4: int)
    ensures Mul128(S5(x0, x1, x2, x3, x4), S5(y0, y1, y2, y3, y4)) ==
            Mul128(x0, y0) + (Mul128(x0, y1) + Mul128(x1, y0)) * TWO_56 +
              (Mul128(x0, y2) + Mul128(x2, y0) + Mul128(x1, y1)) * TWO_112 +
            (Mul128(x0, y3) + Mul128(x3, y0) + Mul128(x1, y2) + Mul128(x2, y1)) * TWO_168 +
            (Mul128(x0, y4) + Mul128(x4, y0) + Mul128(x3, y1) + Mul128(x1, y3) + Mul128(x2, y2)) * TWO_224 +
            (Mul128(x4, y1) + Mul128(x1, y4) + Mul128(x2, y3) + Mul128(x3, y2)) * TWO_280 +
            (Mul128(x4, y2) + Mul128(x2, y4) + Mul128(x3, y3)) * TWO_336 +
            (Mul128(x4, y3) + Mul128(x3, y4)) * TWO_392 +
            (Mul128(x4, y4)) * TWO_448
  {
    hide *;
    Row(S5(y0, y1, y2, y3, y4), x0, x1, x2, x3, x4);
    Row(x0, y0, y1, y2, y3, y4);
    Row(x1, y0, y1, y2, y3, y4);
    Row(x2, y0, y1, y2, y3, y4);
    Row(x3, y0, y1, y2, y3, y4);
    Row(x4, y0, y1, y2, y3, y4);
    GatherColumns(Mul128(x0, y0), Mul128(x0, y1), Mul128(x0, y2), Mul128(x0, y3), Mul128(x0, y4),
                  Mul128(x1, y0), Mul128(x1, y1), Mul128(x1, y2), Mul128(x1, y3), Mul128(x1, y4),
                  Mul128(x2, y0), Mul128(x2, y1), Mul128(x2, y2), Mul128(x2, y3), Mul128(x2, y4),
                  Mul128(x3, y0), Mul128(x3, y1), Mul128(x3, y2), Mul128(x3, y3), Mul128(x3, y4),
                  Mul128(x4, y0), Mul128(x4, y1), Mul128(x4, y2), Mul128(x4, y3), Mul128(x4, y4));
  }

  lemma FullColumnBounds(x0: int, x1: int, x2: int, x3: int, x4: int, y0: int, y1: int, y2: int, y3: int, y4: int)
    requires 0 <= x0 < TWO_56 && 0 <= x1 < TWO_56 && 0 <= x2 < TWO_56 && 0 <= x3 < TWO_56 && 0 <= x4 < TWO_32
    requires 0 <= y0 < TWO_56 && 0 <= y1 < TWO_56 && 0 <= y2 < TWO_56 && 0 <= y3 < TWO_56 && 0 <= y4 < TWO_32
    ensures 0 <= Mul128(x0, y0) < TWO_115
    ensures 0 <= Mul128(x0, y1) + Mul128(x1, y0) < TWO_115
    ensures 0 <= Mul128(x0, y2) + Mul128(x2, y0) + Mul128(x1, y1) < TWO_115
    ensures 0 <= Mul128(x0, y3) + Mul128(x3, y0) + Mul128(x1, y2) + Mul128(x2, y1) < TWO_115
    ensures 0 <= Mul128(x0, y4) + Mul128(x4, y0) + Mul128(x3, y1) + Mul128(x1, y3) + Mul128(x2, y2) < TWO_115
    ensures 0 <= Mul128(x4, y1) + Mul128(x1, y4) + Mul128(x2, y3) + Mul128(x3, y2) < TWO_115
    ensures 0 <= Mul128(x4, y2) + Mul128(x2, y4) + Mul128(x3, y3) < TWO_114
    ensures 0 <= Mul128(x4, y3) + Mul128(x3, y4) < TWO_89
    ensures 0 <= Mul128(x4, y4) < TWO_64
  {
    hide Mul128;
    Mul128Bound(x0, y0, TWO_56, 0xFFFFFFFFFFFFFF);
    Mul128Bound(x0, y1, TWO_56, 0xFFFFFFFFFFFFFF);
    Mul128Bound(x0, y2, TWO_56, 0xFFFFFFFFFFFFFF);
    Mul128Bound(x0, y3, TWO_56, 0xFFFFFFFFFFFFFF);
    Mul128Bound(x0, y4, TWO_56, 0xFFFFFFFF);
    Mul128Bound(x1, y0, TWO_56, 0xFFFFFFFFFFFFFF);
    Mul128Bound(x1, y1, TWO_56, 0xFFFFFFFFFFFFFF);
    Mul128Bound(x1, y2, TWO_56, 0xFFFFFFFFFFFFFF);
    Mul128Bound(x1, y3, TWO_56, 0xFFFFFFFFFFFFFF);
    Mul128Bound(x1, y4, TWO_56, 0xFFFFFFFF);
    Mul128Bound(x2, y0, TWO_56, 0xFFFFFFFFFFFFFF);
    Mul128Bound(x2, y1, TWO_56, 0xFFFFFFFFFFFFFF);
    Mul128Bound(x2, y2, TWO_56, 0xFFFFFFFFFFFFFF);
    Mul128Bound(x2, y3, TWO_56, 0xFFFFFFFFFFFFFF);
    Mul128Bound(x2, y4, TWO_56, 0xFFFFFFFF);
    Mul128Bound(x3, y0, TWO_56, 0xFFFFFFFFFFFFFF);
    Mul128Bound(x3, y1, TWO_56, 0xFFFFFFFFFFFFFF);
    Mul128Bound(x3, y2, TWO_56, 0xFFFFFFFFFFFFFF);
    Mul128Bound(x3, y3, TWO_56, 0xFFFFFFFFFFFFFF);
    Mul128Bound(x3, y4, TWO_56, 0xFFFFFFFF);
    Mul128Bound(x4, y0, TWO_32, 0xFFFFFFFFFFFFFF);
    Mul128Bound(x4, y1, TWO_32, 0xFFFFFFFFFFFFFF);
    Mul128Bound(x4, y2, TWO_32, 0xFFFFFFFFFFFFFF);
    Mul128Bound(x4, y3, TWO_32, 0xFFFFFFFFFFFFFF);
    Mul128Bound(x4, y4, TWO_32, 0xFFFFFFFF);
  }

  // The upper columns, cut at bit 24 of column 4: q1 = product >> 248.
  lemma UpperCarries(c4: int, k5: int, k6: int, k7: int, k8: int)
    requires 0 <= c4 < TWO_120 && 0 <= k5 < TWO_115 && 0 <= k6 < TWO_114
    requires 0 <= k7 < TWO_89 && 0 <= k8 < TWO_64
    ensures var c5 := Hi56(c4) + k5;
            var c6 := Hi56(c5) + k6;
            var c7 := Hi56(c6) + k7;
            var c8 := Hi56(c7) + k8;
            0 <= c5 < TWO_120 && 0 <= c6 < TWO_120 && 0 <= c7 < TWO_90 && 0 <= c8 < TWO_65 &&
            0 <= Hi56(c4) < TWO_64 && 0 <= Hi56(c5) < TWO_64 && 0 <= Hi56(c6) < TWO_64 && 0 <= Hi56(c7) < TWO_64 &&
            0 <= Mid32(c4) < TWO_32 && 0 <= Mid32(c5) < TWO_32 &&
            0 <= Mid32(c6) < TWO_32 && 0 <= Mid32(c7) < TWO_32 && 0 <= c8 / 0x1000000 < TWO_42 &&
            0 <= Mid32(c4) + Up32(c5) < TWO_56 && 0 <= Mid32(c5) + Up32(c6) < TWO_56 &&
            0 <= Mid32(c6) + Up32(c7) < TWO_56 && 0 <= Mid32(c7) + Up32(c8) < TWO_56 &&
            c4 + k5 * TWO_56 + k6 * TWO_112 + k7 * TWO_168 + k8 * TWO_224 ==
            Lo24(c4) + 0x1000000 * S5(Mid32(c4) + Up32(c5), Mid32(c5) + Up32(c6), Mid32(c6) + Up32(c7),
                                      Mid32(c7) + Up32(c8), c8 / 0x1000000)
  {
    hide Lo24, Hi56, Mid32, Up32;
    var c5 := Hi56(c4) + k5;
    var c6 := Hi56(c5) + k6;
    var c7 := Hi56(c6) + k7;
    var c8 := Hi56(c7) + k8;
    Split24(c4);
    Split24(c5);
    Split24(c6);
    Split24(c7);
    Split24(c8);
  }

  lemma ProductHalves(total: int, below: int, a0: int, a1: int, a2: int, a3: int, c4: int,
                      k5: int, k6: int, k7: int, k8: int, q: int)
    requires 0 <= a0 < TWO_56 && 0 <= a1 < TWO_56 && 0 <= a2 < TWO_56 && 0 <= a3 < TWO_56 && c4 >= 0
    requires total == below + k5 * TWO_280 + k6 * TWO_336 + k7 * TWO_392 + k8 * TWO_448
    requires below == S5(a0, a1, a2, a3, Lo40(c4)) + TWO_264 * (c4 / TWO_40)
    requires c4 + k5 * TWO_56 + k6 * TWO_112 + k7 * TWO_168 + k8 * TWO_224 == Lo24(c4) + 0x1000000 * q
    ensures total / TWO_248 == q
    ensures total % TWO_264 == S5(a0, a1, a2, a3, Lo40(c4))
  {
    var low := S5(a0, a1, a2, a3, 0);
    var k := k5 + k6 * TWO_56 + k7 * TWO_112 + k8 * TWO_168;
    assert c4 == Lo40(c4) + TWO_40 * (c4 / TWO_40);
    assert total == low + TWO_224 * (c4 + TWO_56 * k);
    DivModUnique(total, TWO_248, q, low + TWO_224 * Lo24(c4));
    DivModUnique(total, TWO_264, c4 / TWO_40 + 0x10000 * k, low + TWO_224 * Lo40(c4));
  }

  lemma ProductRange(x0: int, x1: int, x2: int, x3: int, x4: int, y0: int, y1: int, y2: int, y3: int, y4: int)
    requires 0 <= x0 < TWO_56 && 0 <= x1 < TWO_56 && 0 <= x2 < TWO_56 && 0 <= x3 < TWO_56 && 0 <= x4 < TWO_32
    requires 0 <= y0 < TWO_56 && 0 <= y1 < TWO_56 && 0 <= y2 < TWO_56 && 0 <= y3 < TWO_56 && 0 <= y4 < TWO_32
    ensures 0 <= Mul128(S5(x0, x1, x2, x3, x4), S5(y0, y1, y2, y3, y4)) < TWO_512
  {
    Mul128Bound(S5(x0, x1, x2, x3, x4), S5(y0, y1, y2, y3, y4), TWO_256,
                0xFFFFFFFFFFFFFFFFFFFFFFFFFFFFFFFFFFFFFFFFFFFFFFFFFFFFFFFFFFFFFFFF);
  }

  lemma QuotientTop(q0: int, q1: int, q2: int, q3: int, q4: int)
    requires 0 <= q0 && 0 <= q1 && 0 <= q2 && 0 <= q3 && 0 <= q4 && S5(q0, q1, q2, q3, q4) < TWO_264
    ensures q4 < TWO_40
  {
  }

  // Lines 144-176: the product x * y as q1 = product >> 248 and r1 = product modulo 2^264.
  method WideProduct(x: array<u64>, y: array<u64>) returns (q1: array<u64>, r1: array<u64>)
    requires Limbs(x, TWO_32) && Limbs(y, TWO_32)
    ensures Limbs(q1, TWO_40) && Limbs(r1, TWO_40) && 0 <= Mul128(Val(x), Val(y)) < TWO_512
    ensures Val(q1) == Mul128(Val(x), Val(y)) / TWO_248 && Val(r1) == Mul128(Val(x), Val(y)) % TWO_264
  {
    hide S5, Lo56, Hi56, Lo40, Mid32, Up32, Lo24, Mul128;
    ghost var total := Mul128(Val(x), Val(y));
    var x0, x1, x2, x3, x4 := x[0], x[1], x[2], x[3], x[4];
    var y0, y1, y2, y3, y4 := y[0], y[1], y[2], y[3], y[4];
    FullColumnBounds(x0, x1, x2, x3, x4, y0, y1, y2, y3, y4);
    SquareOfColumns(x0, x1, x2, x3, x4, y0, y1, y2, y3, y4);
    var c: u128 := Mul128(x0, y0);
    LowCarries(c, Mul128(x0, y1) + Mul128(x1, y0),
               Mul128(x0, y2) + Mul128(x2, y0) + Mul128(x1, y1),
               Mul128(x0, y3) + Mul128(x3, y0) + Mul128(x1, y2) + Mul128(x2, y1),
               Mul128(x0, y4) + Mul128(x4, y0) + Mul128(x3, y1) + Mul128(x1, y3) + Mul128(x2, y2));
    var a0: u64 := Lo56(c);
    var carry: u64 := Hi56(c);
    c := carry + (Mul128(x0, y1) + Mul128(x1, y0));
    var a1: u64 := Lo56(c);
    carry := Hi56(c);
    c := carry + (Mul128(x0, y2) + Mul128(x2, y0) + Mul128(x1, y1));
    var a2: u64 := Lo56(c);
    carry := Hi56(c);
    c := carry + (Mul128(x0, y3) + Mul128(x3, y0) + Mul128(x1, y2) + Mul128(x2, y1));
    var a3: u64 := Lo56(c);
    carry := Hi56(c);
    c := carry + (Mul128(x0, y4) + Mul128(x4, y0) + Mul128(x3, y1) + Mul128(x1, y3) + Mul128(x2, y2));
    var a4: u64 := Lo40(c);
    ghost var c4, k5 := c, Mul128(x4, y1) + Mul128(x1, y4) + Mul128(x2, y3) + Mul128(x3, y2);
    ghost var k6 := Mul128(x4, y2) + Mul128(x2, y4) + Mul128(x3, y3);
    ghost var k7, k8 := Mul128(x4, y3) + Mul128(x3, y4), Mul128(x4, y4);
    UpperCarries(c4, k5, k6, k7, k8);
    var e0: u64 := Mid32(c);

    carry := Hi56(c);
    c := carry + (Mul128(x4, y1) + Mul128(x1, y4) + Mul128(x2, y3) + Mul128(x3, y2));
    e0 := e0 + Up32(c);
    var e1: u64 := Mid32(c);

    carry := Hi56(c);
    c := carry + (Mul128(x4, y2) + Mul128(x2, y4) + Mul128(x3, y3));
    e1 := e1 + Up32(c);
    var e2: u64 := Mid32(c);

    carry := Hi56(c);
    c := carry + (Mul128(x4, y3) + Mul128(x3, y4));
    e2 := e2 + Up32(c);
    var e3: u64 := Mid32(c);

    carry := Hi56(c);
    c := carry + (Mul128(x4, y4));
    e3 := e3 + Up32(c);
    var e4: u64 := c / 0x1000000;

    ProductRange(x0, x1, x2, x3, x4, y0, y1, y2, y3, y4);
    ghost var q := S5(e0, e1, e2, e3, e4);
    ProductHalves(total, total - k5 * TWO_280 - k6 * TWO_336 - k7 * TWO_392 - k8 * TWO_448,
                  a0, a1, a2, a3, c4, k5, k6, k7, k8, q);
    QuotientTop(e0, e1, e2, e3, e4);
    q1 := new u64[5];
    q1[0], q1[1], q1[2], q1[3], q1[4] := e0, e1, e2, e3, e4;
    r1 := new u64[5];
    r1[0], r1[1], r1[2], r1[3], r1[4] := a0, a1, a2, a3, a4;
  }

  method Mul(r: array<u64>, x: array<u64>, y: array<u64>)
    requires r.Length == 5 && Limbs(x, TWO_32) && Limbs(y, TWO_32)
    modifies r
    ensures Limbs(r, TWO_32)
    ensures Val(r) == (old(Val(x)) * old(Val(y))) % M
  {
    ghost var total := Mul128(Val(x), Val(y));
    assert total == Val(x) * Val(y);
    hide *;
    var q1, r1 := WideProduct(x, y);
    BarrettReduce(r, q1, r1, total);
  }

  // Byte strings.

  // `(hi | (x << k)) & 0xffffffffffffff` with 2^k == s.
  lemma Join(hi: int, x: int, s: int, r: int)
    requires 0 <= hi < s && x >= 0 && r > 0 && s * r == TWO_56
    ensures (hi + x * s) % TWO_56 == hi + x % r * s
  {
    var q, low := x / r, x % r;
    assert x == q * r + low && 0 <= low < r;
    assert x * s == (s * r) * q + low * s by {
      assert (q * r) * s == (s * r) * q;
    }
    assert 0 <= hi + low * s < s * r by {
      assert low * s <= (r - 1) * s;
      assert (r - 1) * s == s * r - s;
    }
    DivModUnique(hi + x * s, TWO_56, q, hi + low * s);
  }

  // The limbs of `ed25519_modm_load`: five fields of a number given by 64-bit words.
  lemma LowFields(x0: u64, x1: u64, x2: u64, x3: u64, x4: u64)
    ensures var e1 := (x0 / TWO_56 + x1 * 0x100) % TWO_56;
            var e2 := (x1 / TWO_48 + x2 * 0x1_0000) % TWO_56;
            var e3 := (x2 / TWO_40 + x3 * 0x1000000) % TWO_56;
            var e4 := x3 / TWO_32 + x4 * TWO_32 % TWO_40;
            S5(x0 % TWO_56, e1, e2, e3, x3 / TWO_32) == x0 + x1 * TWO_64 + x2 * TWO_128 + x3 * TWO_192 &&
            S5(x0 % TWO_56, e1, e2, e3, e4) + TWO_264 * (x4 / 0x100) ==
            x0 + x1 * TWO_64 + x2 * TWO_128 + x3 * TWO_192 + x4 * TWO_256 &&
            x3 / TWO_32 < TWO_32 && e4 < TWO_40 &&
            0 <= e1 < TWO_56 && 0 <= e2 < TWO_56 && 0 <= e3 < TWO_56 && 0 <= e4
  {
    Join(x0 / TWO_56, x1, 0x100, TWO_48);
    Join(x1 / TWO_48, x2, 0x1_0000, TWO_40);
    Join(x2 / TWO_40, x3, 0x1000000, TWO_32);
    DivModUnique(x4 * TWO_32, TWO_40, x4 / 0x100, x4 % 0x100 * TWO_32);
  }

  lemma HighFields(x3: u64, x4: u64, x5: u64, x6: u64, x7: u64)
    ensures var e0 := (x3 / TWO_56 + x4 * 0x100) % TWO_56;
            var e1 := (x4 / TWO_48 + x5 * 0x1_0000) % TWO_56;
            var e2 := (x5 / TWO_40 + x6 * 0x1000000) % TWO_56;
            var e3 := (x6 / TWO_32 + x7 * TWO_32) % TWO_56;
            TWO_56 * S5(e0, e1, e2, e3, x7 / 0x1000000) + x3 % TWO_56 ==
            x3 + x4 * TWO_64 + x5 * TWO_128 + x6 * TWO_192 + x7 * TWO_256 &&
            0 <= e0 < TWO_56 && 0 <= e1 < TWO_56 && 0 <= e2 < TWO_56 && 0 <= e3 < TWO_56 && x7 / 0x1000000 < TWO_40
  {
    Join(x3 / TWO_56, x4, 0x100, TWO_48);
    Join(x4 / TWO_48, x5, 0x1_0000, TWO_40);
    Join(x5 / TWO_40, x6, 0x1000000, TWO_32);
    Join(x6 / TWO_32, x7, TWO_32, 0x1000000);
  }

  lemma WordHalves(x: int, x0: u64, x1: u64, x2: u64, x3: u64, x4: u64, x5: u64, x6: u64, x7: u64, low: int, q: int)
    requires x == x0 + x1 * TWO_64 + x2 * TWO_128 + x3 * TWO_192 + x4 * TWO_256 +
                  x5 * TWO_320 + x6 * TWO_384 + x7 * TWO_448
    requires 0 <= low < TWO_264 && low + TWO_264 * (x4 / 0x100) ==
             x0 + x1 * TWO_64 + x2 * TWO_128 + x3 * TWO_192 + x4 * TWO_256
    requires TWO_56 * q + x3 % TWO_56 == x3 + x4 * TWO_64 + x5 * TWO_128 + x6 * TWO_192 + x7 * TWO_256
    ensures 0 <= x < TWO_512 && x / TWO_248 == q && x % TWO_264 == low
  {
    DivModUnique(x, TWO_264, x4 / 0x100 + x5 * TWO_56 + x6 * TWO_120 + x7 * TWO_184, low);
    DivModUnique(x, TWO_248, q, x0 + x1 * TWO_64 + x2 * TWO_128 + x3 % TWO_56 * TWO_192);
  }

  lemma EightWords(s: seq<u8>)
    requires |s| == 64
    ensures LeNat(s) == LoadU64(s, 0) + LoadU64(s, 8) * TWO_64 + LoadU64(s, 16) * TWO_128 + LoadU64(s, 24) * TWO_192 +
                        LoadU64(s, 32) * TWO_256 + LoadU64(s, 40) * TWO_320 + LoadU64(s, 48) * TWO_384 +
                        LoadU64(s, 56) * TWO_448
  {
    hide LeNat, LeBytes, Pow256;
    var lo, hi := s[..32], s[32..];
    FourWords(lo);
    FourWords(hi);
    assert s == lo + hi;
    LeNatConcat(lo, hi);
    Pow256Offsets();
    assert lo[0..8] == s[0..8] && lo[8..16] == s[8..16] && lo[16..24] == s[16..24] && lo[24..32] == s[24..32];
    assert hi[0..8] == s[32..40] && hi[8..16] == s[40..48] && hi[16..24] == s[48..56] && hi[24..32] == s[56..64];
  }

  method Load(out: array<u64>, input: seq<u8>, size64: bool)
    requires out.Length == 5 && |input| == (if size64 then 64 else 32)
    modifies out
    ensures Limbs(out, TWO_32)
    ensures Val(out) == if size64 then LeNat(input) % M else LeNat(input)
  {
    hide S5, LeNat, LoadU64;
    var x0: int, x1: int, x2: int, x3: int := LoadU64(input, 0), LoadU64(input, 8), LoadU64(input, 16),
        LoadU64(input, 24);
    LowFields(x0, x1, x2, x3, 0);
    out[0] := x0 % TWO_56;
    out[1] := (x0 / TWO_56 + x1 * 0x100) % TWO_56;
    out[2] := (x1 / TWO_48 + x2 * 0x1_0000) % TWO_56;
    out[3] := (x2 / TWO_40 + x3 * 0x1000000) % TWO_56;
    out[4] := x3 / TWO_32;
    if !size64 {
      FourLoads(input);
      return;
    }

    var x4: int, x5: int, x6: int, x7: int := LoadU64(input, 32), LoadU64(input, 40), LoadU64(input, 48),
        LoadU64(input, 56);
    LowFields(x0, x1, x2, x3, x4);
    out[4] := out[4] + x4 * TWO_32 % TWO_40;

    HighFields(x3, x4, x5, x6, x7);
    var q1 := new u64[5];
    q1[0] := (x3 / TWO_56 + x4 * 0x100) % TWO_56;
    q1[1] := (x4 / TWO_48 + x5 * 0x1_0000) % TWO_56;
    q1[2] := (x5 / TWO_40 + x6 * 0x1000000) % TWO_56;
    q1[3] := (x6 / TWO_32 + x7 * TWO_32) % TWO_56;
    q1[4] := x7 / 0x1000000;

    EightWords(input);
    TopLimb(out[0], out[1], out[2], out[3], out[4], Val(out) + 1);
    WordHalves(LeNat(input), x0, x1, x2, x3, x4, x5, x6, x7, Val(out), Val(q1));
    BarrettReduce(out, q1, out, LeNat(input));
  }

  lemma FourLoads(s: seq<u8>)
    requires |s| == 32
    ensures LeNat(s) == LoadU64(s, 0) + LoadU64(s, 8) * TWO_64 + LoadU64(s, 16) * TWO_128 + LoadU64(s, 24) * TWO_192
  {
    hide LeNat;
    FourWords(s);
  }

  lemma PackedWords(a0: int, a1: int, a2: int, a3: int, a4: int)
    requires 0 <= a0 < TWO_56 && 0 <= a1 < TWO_56 && 0 <= a2 < TWO_56 && 0 <= a3 < TWO_56 && 0 <= a4 < TWO_32
    ensures var w0 := a0 + a1 * TWO_56 % TWO_64;
            var w1 := a1 / 0x100 + a2 * TWO_48 % TWO_64;
            var w2 := a2 / 0x1_0000 + a3 * TWO_40 % TWO_64;
            var w3 := a3 / 0x1000000 + a4 * TWO_32;
            0 <= w0 < TWO_64 && 0 <= w1 < TWO_64 && 0 <= w2 < TWO_64 && 0 <= w3 < TWO_64 &&
            S5(a0, a1, a2, a3, a4) == w0 + w1 * TWO_64 + w2 * TWO_128 + w3 * TWO_192
  {
    assert a1 * TWO_56 % TWO_64 == a1 % 0x100 * TWO_56;
    assert a2 * TWO_48 % TWO_64 == a2 % 0x1_0000 * TWO_48;
    assert a3 * TWO_40 % TWO_64 == a3 % 0x1000000 * TWO_40;
  }

  lemma PackShifts()
    ensures Pow2(32) == TWO_32 && Pow2(40) == TWO_40 && Pow2(48) == TWO_48 && Pow2(56) == TWO_56
  {
    assert Pow2(8) == 0x100;
    hide *;
    Pow2Sum(8, 0x100, 8, 0x100, 16);
    Pow2Sum(16, 0x1_0000, 16, 0x1_0000, 32);
    Pow2Sum(32, TWO_32, 8, 0x100, 40);
    Pow2Sum(40, TWO_40, 8, 0x100, 48);
    Pow2Sum(48, TWO_48, 8, 0x100, 56);
  }

  lemma PackedOrs(a0: nat, a1: nat, a2: nat, a3: nat, a4: nat)
    requires a0 < TWO_56 && a1 < TWO_56 && a2 < TWO_56 && a3 < TWO_56 && a4 < TWO_32
    ensures Or(a0, a1 * TWO_56 % TWO_64) == a0 + a1 * TWO_56 % TWO_64
    ensures Or(a1 / 0x100, a2 * TWO_48 % TWO_64) == a1 / 0x100 + a2 * TWO_48 % TWO_64
    ensures Or(a2 / 0x1_0000, a3 * TWO_40 % TWO_64) == a2 / 0x1_0000 + a3 * TWO_40 % TWO_64
    ensures Or(a3 / 0x1000000, a4 * TWO_32 % TWO_64) == a3 / 0x1000000 + a4 * TWO_32
  {
    hide Pow2, Or;
    PackShifts();
    OrShifted(a0, a1, 56, TWO_56, 0x100);
    OrShifted(a1 / 0x100, a2, 48, TWO_48, 0x10000);
    OrShifted(a2 / 0x1_0000, a3, 40, TWO_40, 0x1000000);
    OrShifted(a3 / 0x1000000, a4, 32, TWO_32, TWO_32);
  }

  method Store(out: array<u8>, a: array<u64>)
    requires out.Length == 32 && Limbs(a, TWO_32)
    modifies out
    ensures LeNat(out[..]) == old(Val(a))
  {
    hide S5, LeNat, Or;
    var a0: int, a1: int, a2: int, a3: int, a4: int := a[0], a[1], a[2], a[3], a[4];
    PackedWords(a0, a1, a2, a3, a4);
    PackedOrs(a0, a1, a2, a3, a4);
    StoreFour(out,
              Or(a0, a1 * TWO_56 % TWO_64), Or(a1 / 0x100, a2 * TWO_48 % TWO_64),
              Or(a2 / 0x1_0000, a3 * TWO_40 % TWO_64), Or(a3 / 0x1000000, a4 * TWO_32 % TWO_64));
  }
}
