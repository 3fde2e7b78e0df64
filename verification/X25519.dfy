/** The X25519 function: hc/core/hc/crypto/x25519.c against section 5 of RFC 7748.

    `Ladder` is the Montgomery ladder as it is usually explained, without swaps: a pair of points (kQ, (k+1)Q) given
    by x-coordinates X : Z, to which one bit of the scalar is appended at a time. The C code keeps the pair in
    four limb arrays and swaps it in constant time. */
module X25519 {
  import opened Words
  import opened Field25519
  import C = Curve25519

  datatype XZ = XZ(x: int, z: int)

  function Double(p: XZ): XZ {
    var a, b := FAdd(p.x, p.z), FSub(p.x, p.z);
    var aa, bb := FMul(a, a), FMul(b, b);
    var e := FSub(aa, bb);
    XZ(FMul(aa, bb), FMul(e, FAdd(aa, FMul(121665, e))))
  }

  // The sum of p and q, whose difference has x-coordinate u.
  function DiffAdd(u: int, p: XZ, q: XZ): XZ {
    var a, b := FAdd(p.x, p.z), FSub(p.x, p.z);
    var c, d := FAdd(q.x, q.z), FSub(q.x, q.z);
    var da, cb := FMul(d, a), FMul(c, b);
    var s, t := FAdd(da, cb), FSub(da, cb);
    XZ(FMul(s, s), FMul(u, FMul(t, t)))
  }

  // The n low bits of k, most significant first.
  function Ladder(u: int, k: nat, n: nat): (XZ, XZ) {
    if n == 0 then (XZ(1, 0), XZ(u, 1))
    else
      var (p, q) := Ladder(u, k / 2, n - 1);
      if k % 2 == 0 then (Double(p), DiffAdd(u, p, q)) else (DiffAdd(u, p, q), Double(q))
  }

  // The same in the terms of the curve v^2 = u^3 + 486662 u^2 + u: doubling sends u to
  // (u^2 - 1)^2 / (4 u (u^2 + 486662 u + 1)).

  // The same as polynomials, modulo p, on the curve v^2 = u^3 + 486662 u^2 + u: doubling sends u to
  // (u^2 - 1)^2 / (4 u (u^2 + 486662 u + 1)).
  // The x of the double is (x^2 - z^2)^2, its z the product of 4 x z and x^2 + 486662 x z + z^2.

  lemma DoubleFactors(x: int, z: int, aa: int, bb: int, e: int)
    requires aa == FMul(FAdd(x, z), FAdd(x, z)) && bb == FMul(FSub(x, z), FSub(x, z)) && e == FSub(aa, bb)
    ensures Double(XZ(x, z)) == XZ(FMul(aa, bb), FMul(e, FAdd(aa, FMul(121665, e))))
  {
  }

  lemma Squares(x: int, z: int)
    ensures FMul(FAdd(x, z), FAdd(x, z)) == Squared(x + z) % P && FMul(FSub(x, z), FSub(x, z)) == Squared(x - z) % P
  {
    hide FAdd, FSub, FMul, Times;
    PlainOps(x, z);
    OnResidues(x + z, x + z);
    OnResidues(x - z, x - z);
  }

  lemma FirstFactor(x: int, z: int)
    ensures FSub(FMul(FAdd(x, z), FAdd(x, z)), FMul(FSub(x, z), FSub(x, z))) == (4 * Times(x, z)) % P
  {
    hide FAdd, FSub, FMul, Times;
    Binomial(x, z);
    PlainOps(x, z);
    OnResidues(x + z, x + z);
    OnResidues(x - z, x - z);
    OnResidues(Squared(x + z), Squared(x - z));
  }

  lemma SecondFactor(x: int, z: int)
    ensures FAdd(FMul(FAdd(x, z), FAdd(x, z)), FMul(121665, (4 * Times(x, z)) % P)) ==
            (Squared(x) + 486662 * Times(x, z) + Squared(z)) % P
  {
    hide FAdd, FSub, FMul, Times;
    var aa, t := Squared(x + z), 4 * Times(x, z);
    Binomial(x, z);
    PlainOps(x, z);
    OnResidues(x + z, x + z);
    FactorMod(121665, t);
    ScaledTimes(121665, t);
    OnResidues(aa, 121665 * t);
  }

  // Adding points whose difference is u sends u1, u2 to (u1 u2 - 1)^2 / (u (u1 - u2)^2).

  lemma MontgomeryAddX(u: int, p: XZ, q: XZ)
    ensures DiffAdd(u, p, q).x == Squared(2 * (Times(p.x, q.x) - Times(p.z, q.z))) % P
  {
    hide FAdd, FSub, FMul, Times;
    var da, cb := Times(q.x - q.z, p.x + p.z), Times(q.x + q.z, p.x - p.z);
    Crossed(p, q);
    CrossProducts(p.x, p.z, q.x, q.z);
    OnResidues(da + cb, da + cb);
  }

  lemma MontgomeryAddZ(u: int, p: XZ, q: XZ)
    ensures DiffAdd(u, p, q).z == Times(u, Squared(2 * (Times(q.x, p.z) - Times(q.z, p.x)))) % P
  {
    hide FAdd, FSub, FMul, Times;
    var da, cb := Times(q.x - q.z, p.x + p.z), Times(q.x + q.z, p.x - p.z);
    Crossed(p, q);
    CrossProducts(p.x, p.z, q.x, q.z);
    OnResidues(da - cb, da - cb);
    FactorMod(u, Squared(da - cb));
  }

  lemma Crossed(p: XZ, q: XZ)
    ensures var da, cb := Times(q.x - q.z, p.x + p.z), Times(q.x + q.z, p.x - p.z);
            FMul(FSub(q.x, q.z), FAdd(p.x, p.z)) == da % P && FMul(FAdd(q.x, q.z), FSub(p.x, p.z)) == cb % P &&
            FAdd(da % P, cb % P) == (da + cb) % P && FSub(da % P, cb % P) == (da - cb) % P
  {
    hide FAdd, FSub, FMul, Times;
    PlainOps(p.x, p.z);
    PlainOps(q.x, q.z);
    OnResidues(q.x - q.z, p.x + p.z);
    OnResidues(q.x + q.z, p.x - p.z);
    OnResidues(Times(q.x - q.z, p.x + p.z), Times(q.x + q.z, p.x - p.z));
  }

  function Times(x: int, y: int): int {
    x * y
  }

  function Squared(x: int): int {
    Times(x, x)
  }

  lemma OnResidues(x: int, y: int)
    ensures FMul(x % P, y % P) == Times(x, y) % P && FAdd(x % P, y % P) == (x + y) % P &&
            FSub(x % P, y % P) == (x - y) % P
  {
    ModMul(x, y, P);
    ModAdd(x, y, P);
  }

  lemma PlainOps(x: int, y: int)
    ensures FAdd(x, y) == (x + y) % P && FSub(x, y) == (x - y) % P
  {
  }

  lemma FactorMod(x: int, y: int)
    ensures FMul(x, y % P) == Times(x, y) % P
  {
    FMulMod(x, y);
  }

  lemma ScaledTimes(c: int, x: int)
    ensures Times(c, x) == c * x
  {
  }

  lemma Binomial(x: int, z: int)
    ensures Squared(x + z) == Squared(x) + 2 * Times(x, z) + Squared(z)
    ensures Squared(x - z) == Squared(x) - 2 * Times(x, z) + Squared(z)
  {
  }

  lemma SquareDifference(x: int, z: int)
    ensures Times(Squared(x + z), Squared(x - z)) == Squared(Squared(x) - Squared(z))
  {
    var a, b := x + z, x - z;
    assert a * b == x * x - z * z;
    assert (a * a) * (b * b) == (a * b) * (a * b);
  }

  lemma CrossProducts(px: int, pz: int, qx: int, qz: int)
    ensures Times(qx - qz, px + pz) + Times(qx + qz, px - pz) == 2 * (Times(px, qx) - Times(pz, qz))
    ensures Times(qx - qz, px + pz) - Times(qx + qz, px - pz) == 2 * (Times(qx, pz) - Times(qz, px))
  {
  }

  // What lets one swap-dependent step serve both bit values.
  lemma DiffAddSymmetric(u: int, p: XZ, q: XZ)
    ensures DiffAdd(u, p, q) == DiffAdd(u, q, p)
  {
    hide FAdd, FSub, FMul;
    var a, b := FAdd(p.x, p.z), FSub(p.x, p.z);
    var c, d := FAdd(q.x, q.z), FSub(q.x, q.z);
    FMulCommutes(d, a);
    FMulCommutes(c, b);
    FAddCommutes(FMul(d, a), FMul(c, b));
    FSubSquareSymmetric(FMul(d, a), FMul(c, b));
  }

  ghost function Point(x: array<u64>, z: array<u64>): XZ
    requires x.Length == 5 && z.Length == 5
    reads x, z
  {
    XZ(C.Elem(x), C.Elem(z))
  }

  ghost predicate Separate(x0: array<u64>, z0: array<u64>, x1: array<u64>, z1: array<u64>, q: array<u64>) {
    x0 != z0 && x0 != x1 && x0 != z1 && z0 != x1 && z0 != z1 && x1 != z1 && q != x0 && q != z0 && q != x1 && q != z1
  }

  lemma OneSquaring(x: int)
    ensures FPow(x, Pow2(1)) == FMul(x, x)
  {
    var y := x % P;
    assert Pow2(1) == 2 && FPow(x, 1) == FMul(x, FPow(x, 0)) == y;
    ModMul(x, x, P);
    ModMul(x, y, P);
    assert y % P == y;
  }

  // The three parts of the loop body after the swap. First the products both halves need:
  // a = (x0 + z0)^2, b = (x1 - z1)(x0 + z0), x0 = (x0 - z0)^2, z1 = (x1 + z1)(x0 - z0).
  method StepProducts(x0: array<u64>, z0: array<u64>, x1: array<u64>, z1: array<u64>, a: array<u64>, b: array<u64>)
    requires C.Tight(x0) && C.Tight(z0) && C.Tight(x1) && C.Tight(z1) && a.Length == 5 && b.Length == 5
    requires x0 != z0 && x0 != x1 && x0 != z1 && z0 != z1 && x1 != z1
    requires a !in {b, x0, z0, x1, z1} && b !in {x0, z0, x1, z1}
    modifies x0, z1, a, b
    ensures C.Tight(x0) && C.Tight(z1) && C.Tight(a) && C.Tight(b)
    ensures var (A, B) := old((FAdd(C.Elem(x0), C.Elem(z0)), FSub(C.Elem(x0), C.Elem(z0))));
            C.Elem(a) == FMul(A, A) && C.Elem(x0) == FMul(B, B) &&
            C.Elem(b) == FMul(A, old(FSub(C.Elem(x1), C.Elem(z1)))) &&
            C.Elem(z1) == FMul(old(FAdd(C.Elem(x1), C.Elem(z1))), B)
  {
    hide C.Val5, FAdd, FSub, FMul, FPow, Pow2;
    C.AddNoReduce(a, x0, z0);
    C.SubNoReduce(b, x1, z1);
    C.Mul(b, a, b);
    OneSquaring(C.Elem(a));
    C.SquareN(a, a, 1);

    C.SubNoReduce(x0, x0, z0);
    C.AddNoReduce(z1, x1, z1);
    C.Mul(z1, z1, x0);
    OneSquaring(C.Elem(x0));
    C.SquareN(x0, x0, 1);
  }

  // x1 = (z1 + b)^2, z1 = q (z1 - b)^2
  method StepSum(x1: array<u64>, z1: array<u64>, b: array<u64>, q: array<u64>)
    requires x1.Length == 5 && C.Tight(z1) && C.Tight(b) && C.Below(q, TWO_51)
    requires x1 != z1 && b !in {x1, z1} && q !in {x1, z1}
    modifies x1, z1
    ensures C.Tight(x1) && C.Tight(z1)
    ensures var (s, t) := old((FAdd(C.Elem(z1), C.Elem(b)), FSub(C.Elem(z1), C.Elem(b))));
            C.Elem(x1) == FMul(s, s) && C.Elem(z1) == FMul(FMul(t, t), C.Elem(q))
  {
    hide C.Val5, FAdd, FSub, FMul, FPow, Pow2;
    C.AddNoReduce(x1, z1, b);
    OneSquaring(C.Elem(x1));
    C.SquareN(x1, x1, 1);

    C.SubNoReduce(z1, z1, b);
    OneSquaring(C.Elem(z1));
    C.SquareN(z1, z1, 1);
    C.Mul(z1, z1, q);
  }

  // b = a - x0, x0 = a x0, z0 = b (121665 b + a)
  method StepDouble(x0: array<u64>, z0: array<u64>, a: array<u64>, b: array<u64>)
    requires C.Tight(x0) && z0.Length == 5 && C.Tight(a) && b.Length == 5
    requires x0 != z0 && a !in {x0, z0, b} && b !in {x0, z0}
    modifies x0, z0, b
    ensures C.Tight(x0) && C.Tight(z0)
    ensures var (aa, bb) := old((C.Elem(a), C.Elem(x0)));
            var e := FSub(aa, bb);
            C.Elem(x0) == FMul(aa, bb) && C.Elem(z0) == FMul(e, FAdd(FMul(e, 121665), aa))
  {
    hide C.Val5, FAdd, FSub, FMul;
    C.SubNoReduce(b, a, x0);
    C.Mul(x0, a, x0);

    C.MulScalar(z0, b, 121665);
    assert 121665 % P == 121665;
    C.AddNoReduce(z0, z0, a);
    C.Mul(z0, b, z0);
  }

  // The body of the ladder loop after the swap.
  method Step(x0: array<u64>, z0: array<u64>, x1: array<u64>, z1: array<u64>, q: array<u64>)
    requires C.Tight(x0) && C.Tight(z0) && C.Tight(x1) && C.Tight(z1) && C.Below(q, TWO_51)
    requires Separate(x0, z0, x1, z1, q)
    modifies x0, z0, x1, z1
    ensures C.Tight(x0) && C.Tight(z0) && C.Tight(x1) && C.Tight(z1)
    ensures Point(x0, z0) == Double(old(Point(x0, z0)))
    ensures Point(x1, z1) == DiffAdd(C.Elem(q), old(Point(x0, z0)), old(Point(x1, z1)))
  {
    hide C.Val5, C.Elem, FAdd, FSub, FMul;
    ghost var A, B := FAdd(C.Elem(x0), C.Elem(z0)), FSub(C.Elem(x0), C.Elem(z0));
    ghost var E, D := FAdd(C.Elem(x1), C.Elem(z1)), FSub(C.Elem(x1), C.Elem(z1));
    var a := new u64[5];
    var b := new u64[5];
    StepProducts(x0, z0, x1, z1, a, b);
    StepSum(x1, z1, b, q);
    StepDouble(x0, z0, a, b);
    FormulasAgree(C.Elem(q), A, B, E, D);
  }

  // The code's order of factors and its sign of the difference against the RFC's.
  lemma FormulasAgree(u: int, a: int, b: int, c: int, d: int)
    ensures var (da, cb) := (FMul(d, a), FMul(c, b));
            FMul(a, d) == da && FAdd(cb, FMul(a, d)) == FAdd(da, cb) &&
            FMul(FMul(FSub(cb, FMul(a, d)), FSub(cb, FMul(a, d))), u) == FMul(u, FMul(FSub(da, cb), FSub(da, cb)))
    ensures var (aa, bb) := (FMul(a, a), FMul(b, b));
            var e := FSub(aa, bb);
            FAdd(FMul(e, 121665), aa) == FAdd(aa, FMul(121665, e))
  {
    hide *;
    var da, cb := FMul(d, a), FMul(c, b);
    FMulCommutes(a, d);
    FAddCommutes(da, cb);
    FSubSquareSymmetric(da, cb);
    FMulCommutes(u, FMul(FSub(da, cb), FSub(da, cb)));
    var aa, e := FMul(a, a), FSub(FMul(a, a), FMul(b, b));
    FMulCommutes(e, 121665);
    FAddCommutes(aa, FMul(e, 121665));
  }

  // Lines 21-22 and 50-51: both coordinates are swapped or neither is.
  method SwapPoints(x0: array<u64>, z0: array<u64>, x1: array<u64>, z1: array<u64>, swap: u64)
    requires C.Tight(x0) && C.Tight(z0) && C.Tight(x1) && C.Tight(z1) && swap <= 1
    requires x0 != z0 && x0 != x1 && x0 != z1 && z0 != x1 && z0 != z1 && x1 != z1
    modifies x0, z0, x1, z1
    ensures C.Tight(x0) && C.Tight(z0) && C.Tight(x1) && C.Tight(z1)
    ensures swap == 0 ==> Point(x0, z0) == old(Point(x0, z0)) && Point(x1, z1) == old(Point(x1, z1))
    ensures swap == 1 ==> Point(x0, z0) == old(Point(x1, z1)) && Point(x1, z1) == old(Point(x0, z0))
  {
    hide C.Val5;
    C.CSwap(x0, x1, swap);
    C.CSwap(z0, z1, swap);
  }

  // `(n[i >> 3] >> (i & 7)) & 1` is bit i of the number.
  lemma {:induction false} ScalarBit(n: seq<u8>, i: nat)
    requires i < 8 * |n|
    ensures Shr(n[i / 8], i % 8) % 2 == Shr(LeNat(n), i) % 2
  {
    var rest := LeNat(n[1..]);
    assert LeNat(n) == n[0] + 0x100 * rest;
    hide *;
    if i >= 8 {
      ScalarBit(n[1..], i - 8);
      HighBits(n[0], rest, i);
    } else {
      LowBits(n[0], rest, i);
    }
  }

  lemma HighBits(b: u8, rest: nat, i: nat)
    requires i >= 8
    ensures Shr(b + 0x100 * rest, i) == Shr(rest, i - 8)
  {
    assert Pow2(8) == 0x100 && Pow2(0) == 1;
    hide *;
    ShrAdd(b + 0x100 * rest, 8, i - 8);
    ShrLow(b, rest, 8, 8);
    ShrPast(b, 8);
  }

  lemma LowBits(b: u8, rest: nat, i: nat)
    requires i < 8
    ensures Shr(b + 0x100 * rest, i) % 2 == Shr(b, i) % 2
  {
    assert Pow2(8) == 0x100 && Pow2(8 - i) == 2 * Pow2(7 - i);
    hide *;
    ShrLow(b, rest, 8, i);
    DoubleFactor(Pow2(7 - i), rest);
  }

  lemma LadderBit(u: int, k: nat, i: nat, n: nat)
    requires n > 0
    ensures var (p, q) := Ladder(u, Shr(k, i + 1), n - 1);
            Ladder(u, Shr(k, i), n) ==
            if Shr(k, i) % 2 == 0 then (Double(p), DiffAdd(u, p, q)) else (DiffAdd(u, q, p), Double(q))
  {
    hide Double, DiffAdd;
    var (p, q) := Ladder(u, Shr(k, i + 1), n - 1);
    DiffAddSymmetric(u, p, q);
  }

  lemma LadderStart(u: int, k: nat)
    ensures Ladder(u, k, 0) == (XZ(1, 0), XZ(u, 1))
  {
  }

  lemma SmallValues()
    ensures C.Val5(0, 0, 0, 0, 0) % P == 0 && C.Val5(1, 0, 0, 0, 0) % P == 1
  {
    DivModUnique(0, P, 0, 0);
    DivModUnique(1, P, 0, 1);
  }

  // `uint64_t a[5] = {c}` for the small constants the ladder starts from.
  method Constant(c: u64) returns (a: array<u64>)
    requires c <= 1
    ensures fresh(a) && C.Tight(a) && C.Elem(a) == c
  {
    hide C.Val5;
    a := new u64[5](i => 0);
    a[0] := c;
    SmallValues();
  }

  method Copy(out: array<u64>, a: array<u64>)
    requires out.Length == 5 && a.Length == 5
    modifies out
    ensures C.Elem(out) == old(C.Elem(a))
    ensures old(C.Tight(a)) ==> C.Tight(out)
  {
    hide C.Val5;
    out[0], out[1], out[2], out[3], out[4] := a[0], a[1], a[2], a[3], a[4];
  }

  lemma ShiftByZero(k: nat)
    ensures Shr(k, 0) == k
  {
  }

  // One round of the loop: the pair (p, q) is stored as (q, p) while swap is 1.
  method Round(x0: array<u64>, z0: array<u64>, x1: array<u64>, z1: array<u64>, q: array<u64>, swap: u64, bit: u64)
    requires C.Tight(x0) && C.Tight(z0) && C.Tight(x1) && C.Tight(z1) && C.Below(q, TWO_51) && swap <= 1 && bit <= 1
    requires Separate(x0, z0, x1, z1, q)
    modifies x0, z0, x1, z1
    ensures C.Tight(x0) && C.Tight(z0) && C.Tight(x1) && C.Tight(z1)
    ensures var (p0, p1) := old((Point(x0, z0), Point(x1, z1)));
            var (p, r) := if swap == bit then (p0, p1) else (p1, p0);
            Point(x0, z0) == Double(p) && Point(x1, z1) == DiffAdd(C.Elem(q), p, r)
  {
    hide C.Val5, Double, DiffAdd;
    SwapPoints(x0, z0, x1, z1, (swap + bit) % 2);
    Step(x0, z0, x1, z1, q);
  }

  method ScalarMultiply(outX: array<u64>, outZ: array<u64>, n: seq<u8>, q: array<u64>)
    requires outX.Length == 5 && outZ.Length == 5 && outX != outZ && |n| == 32 && C.Below(q, TWO_51)
    modifies outX, outZ
    ensures C.Tight(outX) && C.Tight(outZ)
    ensures Point(outX, outZ) == Ladder(old(C.Elem(q)), LeNat(n), 256).0
  {
    hide C.Elem, Ladder, Double, DiffAdd, LeNat, Shr;
    var x0 := Constant(1);
    var z0 := Constant(0);
    var x1 := new u64[5];
    var z1 := Constant(1);
    Copy(x1, q);
    ghost var u, k := C.Elem(q), LeNat(n);
    LadderStart(u, Shr(k, 256));

    var swap: u64 := 0;
    var i := 256;
    while i > 0
      invariant 0 <= i <= 256 && swap <= 1 && u == C.Elem(q) && C.Below(q, TWO_51)
      invariant C.Tight(x0) && C.Tight(z0) && C.Tight(x1) && C.Tight(z1)
      invariant fresh(x0) && fresh(z0) && fresh(x1) && fresh(z1) && Separate(x0, z0, x1, z1, q)
      invariant (if swap == 0 then (Point(x0, z0), Point(x1, z1)) else (Point(x1, z1), Point(x0, z0)))
                == Ladder(u, Shr(k, i), 256 - i)
    {
      i := i - 1;
      ScalarBit(n, i);
      LadderBit(u, k, i, 256 - i);
      var bit: u64 := Shr(n[i / 8], i % 8) % 2;
      Round(x0, z0, x1, z1, q, swap, bit);
      swap := bit;
    }
    SwapPoints(x0, z0, x1, z1, swap);
    ShiftByZero(k);

    Copy(outX, x0);
    Copy(outZ, z0);
  }

  // Decoding, section 5 of RFC 7748.

  function Clamp(secret: seq<u8>): (e: seq<u8>)
    requires |secret| == 32
    ensures |e| == 32
  {
    secret[0 := secret[0] / 8 * 8][31 := secret[31] % 0x40 + 0x40]
  }

  // What clamping is for: a multiple of the cofactor 8 with bit 254 set and bit 255 clear.
  lemma ClampRange(secret: seq<u8>)
    requires |secret| == 32
    ensures LeNat(Clamp(secret)) % 8 == 0 && TWO_254 <= LeNat(Clamp(secret)) < TWO_255
  {
    hide LeNat, Clamp;
    ClampBytes(secret);
    var e := Clamp(secret);
    LowMultiple(e);
    HighByte(e);
    TopBits(LeNat(e), e[31]);
  }

  // Every other bit of the secret survives.
  lemma ClampValue(secret: seq<u8>)
    requires |secret| == 32
    ensures LeNat(Clamp(secret)) == TWO_254 + LeNat(secret) % TWO_254 - LeNat(secret) % 8
  {
    hide LeNat, Clamp, Whole;
    var e := Clamp(secret);
    ClampedBytes(secret);
    ThreeParts(secret);
    ThreeParts(e);
    ClampParts(secret[0], LeNat(secret[1..31]), secret[31]);
  }

  lemma ClampedBytes(secret: seq<u8>)
    requires |secret| == 32
    ensures var e := Clamp(secret);
            e[1..31] == secret[1..31] && e[0] == secret[0] / 8 * 8 && e[31] == secret[31] % 0x40 + 0x40
  {
  }

  function Whole(low: int, mid: int, top: int): int {
    low + 0x100 * mid + TWO_248 * top
  }

  lemma ThreeParts(s: seq<u8>)
    requires |s| == 32
    ensures LeNat(s) == Whole(s[0], LeNat(s[1..31]), s[31]) && LeNat(s[1..31]) < TWO_240
  {
    hide LeNat;
    assert s == s[..31] + [s[31]] && s[..31][1..] == s[1..31];
    LowByte(s[..31]);
    C.TopByte(s[..31], s[31]);
  }

  lemma ClampParts(low: u8, mid: nat, top: u8)
    requires mid < TWO_240
    ensures var x := Whole(low, mid, top);
            Whole(low / 8 * 8, mid, top % 0x40 + 0x40) == TWO_254 + x % TWO_254 - x % 8
  {
    var x := Whole(low, mid, top);
    DivModUnique(x, TWO_254, top / 0x40, low as int + 0x100 * mid + TWO_248 * (top % 0x40));
    DivModUnique(x, 8, low / 8 + 32 * mid + TWO_248 / 8 * top, low % 8);
  }

  lemma ClampBytes(secret: seq<u8>)
    requires |secret| == 32
    ensures Clamp(secret)[0] % 8 == 0 && 0x40 <= Clamp(secret)[31] < 0x80
  {
  }

  lemma LowMultiple(s: seq<u8>)
    requires |s| > 0 && s[0] % 8 == 0
    ensures LeNat(s) % 8 == 0
  {
    hide LeNat;
    LowByte(s);
    DivModUnique(LeNat(s), 8, s[0] / 8 + 32 * LeNat(s[1..]), 0);
  }

  lemma TopBits(x: int, top: int)
    requires TWO_248 * top <= x < TWO_248 * (top + 1) && 0x40 <= top < 0x80
    ensures TWO_254 <= x < TWO_255
  {
    MulMonotone(TWO_248, 0x40, top);
    MulMonotone(TWO_248, top + 1, 0x80);
  }

  lemma LowByte(s: seq<u8>)
    requires |s| > 0
    ensures LeNat(s) == s[0] + 0x100 * LeNat(s[1..])
  {
  }

  lemma HighByte(s: seq<u8>)
    requires |s| == 32
    ensures TWO_248 * s[31] <= LeNat(s) < TWO_248 * (s[31] as int + 1)
  {
    hide LeNat;
    assert s == s[..31] + [s[31]];
    C.TopByte(s[..31], s[31]);
  }

  function Result(p: XZ): int {
    FMul(p.x, FPow(p.z, P - 2))
  }

  // The u-coordinate: bit 255 is ignored, and values from p on are reduced.
  function Masked(public: seq<u8>): (u: int)
    ensures IsResidue(u)
  {
    LeNat(public) % TWO_255 % P
  }

  method Compute(out: array<u8>, secret: seq<u8>, public: seq<u8>)
    requires out.Length == 32 && |secret| == 32 && |public| == 32
    modifies out
    ensures var u, k := Masked(public), TWO_254 + LeNat(secret) % TWO_254 - LeNat(secret) % 8;
            LeNat(out[..]) == Result(Ladder(u, k, 256).0) &&
            (u == 0 || FPow(FMul(4, u), P - 1) == 1 ==> LeNat(out[..]) == Result(Ladder(u, k, 255).0))
  {
    hide C.Val5, FMul, FPow, Ladder, LeNat, Clamp;
    var bp := new u64[5];
    var x := new u64[5];
    var z := new u64[5];
    var e := Clamp(secret);
    C.Load(bp, public);
    ScalarMultiply(x, z, e, bp);
    C.Invert(z, z);
    C.Mul(z, x, z);
    C.Reduce(z);
    C.Store(out, z);
    ClampValue(secret);
    ClampRange(secret);
    OutputMatchesRfc(Masked(public), LeNat(e));
  }

  // The code runs 256 rounds where the RFC runs 255. Bit 255 of a clamped scalar is zero, and the extra round only
  // rescales projective coordinates.

  function Scale(c: int, p: XZ): XZ {
    XZ(FMul(c, p.x), FMul(c, p.z))
  }

  lemma DoubleHomogeneous(c: int, p: XZ)
    ensures Double(Scale(c, p)) == Scale(FMul(FMul(c, c), FMul(c, c)), Double(p))
  {
    hide FAdd, FSub, FMul;
    var c2 := FMul(c, c);
    var a, b := FAdd(p.x, p.z), FSub(p.x, p.z);
    FDistribute(c, p.x, p.z);
    FMulInterchange(c, a, c, a);
    FMulInterchange(c, b, c, b);
    var aa, bb := FMul(a, a), FMul(b, b);
    var e := FSub(aa, bb);
    FDistribute(c2, aa, bb);
    FMulInterchange(c2, aa, c2, bb);
    var f := FMul(121665, e);
    FMulAssociates(121665, c2, e);
    FMulCommutes(121665, c2);
    FMulAssociates(c2, 121665, e);
    FDistribute(c2, aa, f);
    FMulInterchange(c2, e, c2, FAdd(aa, f));
  }

  // The same for the sum, coordinate by coordinate.

  lemma CrossHomogeneous(c: int, p: XZ, d: int, q: XZ)
    ensures FMul(FSub(FMul(d, q.x), FMul(d, q.z)), FAdd(FMul(c, p.x), FMul(c, p.z)))
            == FMul(FMul(d, c), FMul(FSub(q.x, q.z), FAdd(p.x, p.z)))
    ensures FMul(FAdd(FMul(d, q.x), FMul(d, q.z)), FSub(FMul(c, p.x), FMul(c, p.z)))
            == FMul(FMul(d, c), FMul(FAdd(q.x, q.z), FSub(p.x, p.z)))
  {
    hide FAdd, FSub, FMul;
    FDistribute(c, p.x, p.z);
    FDistribute(d, q.x, q.z);
    FMulInterchange(d, FSub(q.x, q.z), c, FAdd(p.x, p.z));
    FMulInterchange(d, FAdd(q.x, q.z), c, FSub(p.x, p.z));
  }

  lemma DiffAddHomogeneousX(u: int, c: int, p: XZ, d: int, q: XZ)
    ensures DiffAdd(u, Scale(c, p), Scale(d, q)).x == FMul(FMul(FMul(d, c), FMul(d, c)), DiffAdd(u, p, q).x)
  {
    hide FAdd, FSub, FMul;
    var m := FMul(d, c);
    CrossHomogeneous(c, p, d, q);
    var da, cb := FMul(FSub(q.x, q.z), FAdd(p.x, p.z)), FMul(FAdd(q.x, q.z), FSub(p.x, p.z));
    FDistribute(m, da, cb);
    FMulInterchange(m, FAdd(da, cb), m, FAdd(da, cb));
  }

  lemma DiffAddHomogeneousZ(u: int, c: int, p: XZ, d: int, q: XZ)
    ensures DiffAdd(u, Scale(c, p), Scale(d, q)).z == FMul(FMul(FMul(d, c), FMul(d, c)), DiffAdd(u, p, q).z)
  {
    hide FAdd, FSub, FMul;
    var m := FMul(d, c);
    CrossHomogeneous(c, p, d, q);
    var da, cb := FMul(FSub(q.x, q.z), FAdd(p.x, p.z)), FMul(FAdd(q.x, q.z), FSub(p.x, p.z));
    FDistribute(m, da, cb);
    var t, m2 := FSub(da, cb), FMul(m, m);
    FMulInterchange(m, t, m, t);
    FMulAssociates(u, m2, FMul(t, t));
    FMulCommutes(u, m2);
    FMulAssociates(m2, u, FMul(t, t));
  }

  // A round with bit zero from the starting pair.
  lemma FirstZeroBit(u: int)
    requires IsResidue(u)
    ensures Double(XZ(1, 0)) == Scale(1, XZ(1, 0))
    ensures DiffAdd(u, XZ(1, 0), XZ(u, 1)) == Scale(FMul(4, u), XZ(u, 1))
  {
    StartConstants(u);
    StartSquares(u);
    hide FAdd, FSub, FMul;
  }

  lemma StartConstants(u: int)
    requires IsResidue(u)
    ensures FAdd(1, 0) == 1 && FSub(1, 0) == 1 && FMul(1, 1) == 1 && FSub(1, 1) == 0 && FMul(1, 0) == 0
    ensures FMul(121665, 0) == 0 && FMul(0, FAdd(1, 0)) == 0
    ensures FMul(FSub(u, 1), 1) == FSub(u, 1) && FMul(FAdd(u, 1), 1) == FAdd(u, 1)
    ensures FMul(FMul(4, u), 1) == FMul(4, u)
  {
    FMulOne(FSub(u, 1));
    FMulOne(FAdd(u, 1));
    FMulOne(FMul(4, u));
  }

  lemma StartSquares(u: int)
    requires IsResidue(u)
    ensures var s, t := FAdd(FSub(u, 1), FAdd(u, 1)), FSub(FSub(u, 1), FAdd(u, 1));
            FMul(s, s) == FMul(FMul(4, u), u) && FMul(u, FMul(t, t)) == FMul(4, u)
  {
    ModAdd(u - 1, u + 1, P);
    var s, t := FAdd(FSub(u, 1), FAdd(u, 1)), FSub(FSub(u, 1), FAdd(u, 1));
    assert s == (2 * u) % P && t == (-2) % P;
    hide FAdd, FSub, FMul;
    SquareOfDouble(u);
    SquareOfMinusTwo();
    FMulCommutes(u, 4);
  }

  lemma SquareOfDouble(u: int)
    ensures FMul((2 * u) % P, (2 * u) % P) == FMul(FMul(4, u), u)
  {
    var v, w := 2 * u, 4 * u;
    assert v * v == w * u;
    ModMul(v, v, P);
    FMulMod(w, u);
    assert FMul(4, u) == w % P;
  }

  lemma SquareOfMinusTwo()
    ensures FMul((-2) % P, (-2) % P) == 4
  {
    ModMul(-2, -2, P);
    DivModUnique(4, P, 0, 4);
  }

  // An extra leading zero bit multiplies both points by powers of 4u.
  lemma {:induction false} LeadingZeroRescales(u: int, k: nat, n: nat) returns (i: nat, j: nat)
    requires IsResidue(u) && k < Pow2(n)
    ensures var g := FMul(4, u);
            Ladder(u, k, n + 1) == (Scale(FPow(g, i), Ladder(u, k, n).0), Scale(FPow(g, j), Ladder(u, k, n).1))
  {
    var g := FMul(4, u);
    if n == 0 {
      FirstZeroBit(u);
      FMulOne(g);
      assert FPow(g, 1) == FMul(g, FPow(g, 0));
      i, j := 0, 1;
      assert Ladder(u, 0, 0) == (XZ(1, 0), XZ(u, 1));
    } else {
      var i', j' := LeadingZeroRescales(u, k / 2, n - 1);
      var c, d := FPow(g, i'), FPow(g, j');
      hide Double, DiffAdd, FMul, FPow;
      var (p, q) := Ladder(u, k / 2, n - 1);
      DiffAddHomogeneousX(u, c, p, d, q);
      DiffAddHomogeneousZ(u, c, p, d, q);
      DoubleHomogeneous(c, p);
      DoubleHomogeneous(d, q);
      FourthPower(g, i');
      FourthPower(g, j');
      FPowAdd(g, j', i');
      FPowAdd(g, j' + i', j' + i');
      i, j := if k % 2 == 0 then 4 * i' else 2 * (j' + i'), if k % 2 == 0 then 2 * (j' + i') else 4 * j';
    }
  }

  lemma FourthPower(g: int, i: nat)
    ensures var c := FPow(g, i); FMul(FMul(c, c), FMul(c, c)) == FPow(g, 4 * i)
  {
    hide FMul, FPow;
    FPowAdd(g, i, i);
    FPowAdd(g, 2 * i, 2 * i);
    assert i + i == 2 * i && 2 * i + 2 * i == 4 * i;
  }

  // The output is RFC 7748's up to a power of (4u)^(p - 1).
  lemma OutputFactor(u: int, k: nat) returns (e: nat)
    requires IsResidue(u) && k < TWO_255
    ensures Result(Ladder(u, k, 256).0) == FMul(FPow(FPow(FMul(4, u), P - 1), e), Result(Ladder(u, k, 255).0))
  {
    Pow255();
    hide Ladder, FMul, FPow;
    var j;
    e, j := LeadingZeroRescales(u, k, 255);
    var g, p := FMul(4, u), Ladder(u, k, 255).0;
    var c := FPow(g, e);
    FPowProduct(c, p.z, P - 2);
    FMulInterchange(c, p.x, FPow(c, P - 2), FPow(p.z, P - 2));
    PowStep(c, P - 1);
    PowersCommute(g, e, P - 1);
  }

  lemma PowersCommute(g: int, m: nat, n: nat)
    ensures FPow(FPow(g, m), n) == FPow(FPow(g, n), m)
  {
    hide FPow;
    assert m * n == n * m && m * n >= 0;
    FPowMul(g, m, n, m * n);
    FPowMul(g, n, m, m * n);
  }

  // The code computes exactly the RFC's function: for u == 0 both give 0, and for every other u the factor is one by
  // the instance of Fermat's little theorem for 4u, which the primality of p provides.
  lemma OutputMatchesRfc(u: int, k: nat)
    requires IsResidue(u) && k < TWO_255
    ensures u == 0 || FPow(FMul(4, u), P - 1) == 1 ==> Result(Ladder(u, k, 256).0) == Result(Ladder(u, k, 255).0)
  {
    hide Ladder, FMul, FPow;
    if u == 0 {
      LadderOfZero(k, 256);
      LadderOfZero(k, 255);
    } else if FPow(FMul(4, u), P - 1) == 1 {
      var e := OutputFactor(u, k);
      PowerOfOne(e);
      ResultResidue(Ladder(u, k, 255).0);
      FMulOne(Result(Ladder(u, k, 255).0));
    }
  }

  lemma ResultResidue(p: XZ)
    ensures IsResidue(Result(p))
  {
  }

  lemma {:induction false} PowerOfOne(e: nat)
    ensures FPow(1, e) == 1
  {
    if e > 0 {
      PowerOfOne(e - 1);
    }
  }

  lemma {:induction false} LadderOfZero(k: nat, n: nat)
    ensures var (p, q) := Ladder(0, k, n); p.z == 0 && (q.z == 0 || q == XZ(0, 1)) && Result(p) == 0
    decreases n
  {
    ZeroFactors();
    if n == 0 {
      NoResult(1);
    } else {
      LadderOfZero(k / 2, n - 1);
      var (p, q) := Ladder(0, k / 2, n - 1);
      DoubleOfZero(p.x);
      DoubleOfZero(q.x);
      DiffAddOfZero(p, q);
      NoResult(Ladder(0, k, n).0.x);
    }
  }

  lemma DoubleOfZero(x: int)
    ensures Double(XZ(x, 0)).z == 0
  {
    var a := x % P;
    assert FAdd(x, 0) == a && FSub(x, 0) == a;
    hide FMul;
    ZeroFactors();
    assert FSub(FMul(a, a), FMul(a, a)) == 0;
    FMulZero(FAdd(FMul(a, a), FMul(121665, 0)));
  }

  lemma DiffAddOfZero(p: XZ, q: XZ)
    ensures DiffAdd(0, p, q).z == 0
  {
    hide FMul;
    var t := FSub(FMul(FSub(q.x, q.z), FAdd(p.x, p.z)), FMul(FAdd(q.x, q.z), FSub(p.x, p.z)));
    FMulZero(FMul(t, t));
  }

  lemma NoResult(x: int)
    ensures Result(XZ(x, 0)) == 0
  {
    hide FMul;
    PowStep(0, P - 2);
    FMulZero(FPow(0, P - 3));
    FMulCommutes(x, 0);
    FMulZero(x);
  }

  lemma FMulZero(x: int)
    ensures FMul(0, x) == 0
  {
  }

  lemma ZeroFactors()
    ensures Double(XZ(0, 1)).z == 0
  {
    var b := FSub(0, 1);
    assert FAdd(0, 1) == 1 && FMul(1, 1) == 1;
    assert FMul(b, b) == 1 by {
      ModMul(-1, -1, P);
    }
    assert FSub(1, 1) == 0;
    hide FMul, FSub, FAdd;
    FMulZero(FAdd(1, FMul(121665, 0)));
  }

  lemma PowStep(x: int, n: nat)
    requires n > 0
    ensures FPow(x, n) == FMul(x, FPow(x, n - 1))
  {
  }
}
