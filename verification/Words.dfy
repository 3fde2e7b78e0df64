/** Machine words, byte strings and the bit operations shared by every component.

    A `uint64_t` is an integer below 2^64, and every assignment to a `u64` variable is an obligation that
    the stored value fits: a lost bit in a sum or a cast is a verification error. Where the C code relies
    on wrap-around the models write the reduction out.

    `x & (2^k - 1)`, `x >> k` and `x << k` are written `x % 2^k`, `x / 2^k` and `x * 2^k`, an `|` of values
    without common bits is written `+`. The lemmas `AndMask`, `OrDisjoint` and `SelectByMask` state why
    this is what the bitwise operators do. */
module Words {
  type u8 = x: int | 0 <= x < 0x100
  type u16 = x: int | 0 <= x < 0x1_0000
  type u32 = x: int | 0 <= x < 0x1_0000_0000
  type u64 = x: int | 0 <= x < 0x1_0000_0000_0000_0000
  type u128 = x: int | 0 <= x < 0x1_0000_0000_0000_0000_0000_0000_0000_0000

  // Powers of two.
  const TWO_32: int := 0x1_0000_0000
  const TWO_36: int := 0x10_0000_0000
  const TWO_38: int := 0x40_0000_0000
  const TWO_39: int := 0x80_0000_0000
  const TWO_40: int := 0x100_0000_0000
  const TWO_41: int := 0x200_0000_0000
  const TWO_42: int := 0x400_0000_0000
  const TWO_43: int := 0x800_0000_0000
  const TWO_44: int := 0x1000_0000_0000
  const TWO_45: int := 0x2000_0000_0000
  const TWO_46: int := 0x4000_0000_0000
  const TWO_48: int := 0x1_0000_0000_0000
  const TWO_49: int := 0x2_0000_0000_0000
  const TWO_51: int := 0x8_0000_0000_0000
  const TWO_52: int := 0x10_0000_0000_0000
  const TWO_53: int := 0x20_0000_0000_0000
  const TWO_54: int := 0x40_0000_0000_0000
  const TWO_55: int := 0x80_0000_0000_0000
  const TWO_56: int := 0x100_0000_0000_0000
  const TWO_60: int := 0x1000_0000_0000_0000
  const TWO_62: int := 0x4000_0000_0000_0000
  const TWO_63: int := 0x8000_0000_0000_0000
  const TWO_64: int := 0x1_0000_0000_0000_0000
  const TWO_65: int := 0x2_0000_0000_0000_0000
  const TWO_76: int := 0x1000_0000_0000_0000_0000
  const TWO_78: int := 0x4000_0000_0000_0000_0000
  const TWO_88: int := 0x100_0000_0000_0000_0000_0000
  const TWO_89: int := 0x200_0000_0000_0000_0000_0000
  const TWO_90: int := 0x400_0000_0000_0000_0000_0000
  const TWO_96: int := 0x1_0000_0000_0000_0000_0000_0000
  const TWO_97: int := 0x2_0000_0000_0000_0000_0000_0000
  const TWO_102: int := 0x40_0000_0000_0000_0000_0000_0000
  const TWO_108: int := 0x1000_0000_0000_0000_0000_0000_0000
  const TWO_111: int := 0x8000_0000_0000_0000_0000_0000_0000
  const TWO_112: int := 0x1_0000_0000_0000_0000_0000_0000_0000
  const TWO_114: int := 0x4_0000_0000_0000_0000_0000_0000_0000
  const TWO_115: int := 0x8_0000_0000_0000_0000_0000_0000_0000
  const TWO_120: int := 0x100_0000_0000_0000_0000_0000_0000_0000
  const TWO_126: int := 0x4000_0000_0000_0000_0000_0000_0000_0000
  const TWO_128: int := 0x1_0000_0000_0000_0000_0000_0000_0000_0000
  const TWO_130: int := 0x4_0000_0000_0000_0000_0000_0000_0000_0000
  const TWO_152: int := 0x100_0000_0000_0000_0000_0000_0000_0000_0000_0000
  const TWO_153: int := 0x200_0000_0000_0000_0000_0000_0000_0000_0000_0000
  const TWO_168: int := 0x100_0000_0000_0000_0000_0000_0000_0000_0000_0000_0000
  const TWO_184: int := 0x100_0000_0000_0000_0000_0000_0000_0000_0000_0000_0000_0000
  const TWO_192: int := 0x1_0000_0000_0000_0000_0000_0000_0000_0000_0000_0000_0000_0000
  const TWO_204: int := 0x1000_0000_0000_0000_0000_0000_0000_0000_0000_0000_0000_0000_0000
  const TWO_224: int := 0x1_0000_0000_0000_0000_0000_0000_0000_0000_0000_0000_0000_0000_0000_0000
  const TWO_226: int := 0x4_0000_0000_0000_0000_0000_0000_0000_0000_0000_0000_0000_0000_0000_0000
  const TWO_240: int := 0x1_0000_0000_0000_0000_0000_0000_0000_0000_0000_0000_0000_0000_0000_0000_0000
  const TWO_248: int := 0x100_0000_0000_0000_0000_0000_0000_0000_0000_0000_0000_0000_0000_0000_0000_0000
  const TWO_252: int := 0x1000_0000_0000_0000_0000_0000_0000_0000_0000_0000_0000_0000_0000_0000_0000_0000
  const TWO_254: int := 0x4000_0000_0000_0000_0000_0000_0000_0000_0000_0000_0000_0000_0000_0000_0000_0000
  const TWO_255: int := 0x8000_0000_0000_0000_0000_0000_0000_0000_0000_0000_0000_0000_0000_0000_0000_0000
  const TWO_256: int := 0x1_0000_0000_0000_0000_0000_0000_0000_0000_0000_0000_0000_0000_0000_0000_0000_0000
  const TWO_264: int := 0x100_0000_0000_0000_0000_0000_0000_0000_0000_0000_0000_0000_0000_0000_0000_0000_0000
  const TWO_280: int := 0x100_0000_0000_0000_0000_0000_0000_0000_0000_0000_0000_0000_0000_0000_0000_0000_0000_0000
  const TWO_320: int :=
    0x100000000000000000000000000000000000000000000000000000000000000000000000000000000
  const TWO_336: int :=
    0x1000000000000000000000000000000000000000000000000000000000000000000000000000000000000
  const TWO_384: int :=
    0x1000000000000000000000000000000000000000000000000000000000000000000000000000000000000000000000000
  const TWO_392: int :=
    0x100000000000000000000000000000000000000000000000000000000000000000000000000000000000000000000000000
  const TWO_448: int :=
    0x10000000000000000000000000000000000000000000000000000000000000000000000000000000000000000000000000000000000000000
  const TWO_512: int :=
    0x100000000000000000000000000000000000000000000000000000000000000000000000000000000000000000000000000000000000000000000000000000000

  datatype Option<T> = None | Some(value: T)

  function Pow2(n: nat): (r: nat)
    ensures r > 0
  {
    if n == 0 then 1 else 2 * Pow2(n - 1)
  }

  lemma {:induction false} Pow2Add(m: nat, n: nat)
    ensures Pow2(m + n) == Pow2(m) * Pow2(n)
  {
    if m > 0 {
      Pow2Add(m - 1, n);
      assert Pow2(m + n) == 2 * Pow2(m - 1 + n);
    }
  }

  lemma Pow2Sum(m: nat, u: nat, n: nat, v: nat, mn: nat)
    requires Pow2(m) == u && Pow2(n) == v && mn == m + n
    ensures Pow2(mn) == u * v
  {
    Pow2Add(m, n);
  }

  // The 64 by 64 to 128 bit product. Its body is hidden wherever only bounds and linearity matter.
  function Mul128(x: int, y: int): int {
    x * y
  }

  lemma Mul128Bound(x: int, y: int, xMax: nat, yMax: nat)
    requires 0 <= x <= xMax && 0 <= y <= yMax
    ensures 0 <= Mul128(x, y) <= xMax * yMax
  {
    assert x * y <= xMax * y;
    assert xMax * y <= xMax * yMax;
  }

  // x >> n for a shift distance that is not fixed.
  function Shr(x: nat, n: nat): nat {
    if n == 0 then x else Shr(x, n - 1) / 2
  }

  lemma {:induction false} ShrAdd(x: nat, m: nat, n: nat)
    ensures Shr(x, m + n) == Shr(Shr(x, m), n)
  {
    if n > 0 {
      ShrAdd(x, m, n - 1);
    }
  }

  // Bits below position m are those of the low part.
  lemma {:induction false} ShrLow(lo: nat, hi: nat, m: nat, n: nat)
    requires n <= m
    ensures Shr(lo + Pow2(m) * hi, n) == Shr(lo, n) + Pow2(m - n) * hi
  {
    if n > 0 {
      ShrLow(lo, hi, m, n - 1);
      DoubleFactor(Pow2(m - n), hi);
      assert Pow2(m - (n - 1)) == 2 * Pow2(m - n);
    }
  }

  lemma {:induction false} ShrPast(x: nat, n: nat)
    requires x < Pow2(n)
    ensures Shr(x, n) == 0
  {
    if n > 0 {
      ShrAdd(x, 1, n - 1);
      assert Shr(x, 1) == x / 2;
      ShrPast(x / 2, n - 1);
    }
  }

  lemma {:induction false} ShrSmall(x: nat, m: nat, n: nat)
    requires x < Pow2(m + n)
    ensures Shr(x, n) < Pow2(m)
  {
    if n > 0 {
      ShrSmall(x / 2, m, n - 1);
      ShrAdd(x, 1, n - 1);
      assert Shr(x, 1) == x / 2;
    }
  }

  lemma {:induction false} ShrZero(n: nat)
    ensures Shr(0, n) == 0
  {
    if n > 0 {
      ShrZero(n - 1);
    }
  }

  // Bitwise operators, bit by bit.

  function And(x: nat, y: nat): nat {
    if x == 0 || y == 0 then 0 else (x % 2) * (y % 2) + 2 * And(x / 2, y / 2)
  }

  function Or(x: nat, y: nat): nat {
    if x == 0 && y == 0 then 0 else (if x % 2 == 1 || y % 2 == 1 then 1 else 0) + 2 * Or(x / 2, y / 2)
  }

  function Xor(x: nat, y: nat): nat {
    if x == 0 && y == 0 then 0 else (if x % 2 == y % 2 then 0 else 1) + 2 * Xor(x / 2, y / 2)
  }

  // Masking with k ones keeps the k low bits.
  lemma {:induction false} AndMask(x: nat, k: nat)
    ensures And(x, Pow2(k) - 1) == x % Pow2(k)
  {
    hide And;
    if k == 0 {
      AndNothing(x);
    } else {
      var h := Pow2(k - 1);
      AndMask(x / 2, k - 1);
      AndMaskStep(x, h);
    }
  }

  lemma AndNothing(x: nat)
    ensures And(x, 0) == 0 && x % 1 == 0
  {
  }

  lemma AndMaskStep(x: nat, h: nat)
    requires h > 0 && And(x / 2, h - 1) == x / 2 % h
    ensures And(x, 2 * h - 1) == x % (2 * h)
  {
    hide *;
    AndOdd(x, h - 1);
    HalfDivMod(x, h);
  }

  lemma AndOdd(x: nat, m: nat)
    ensures And(x, 2 * m + 1) == x % 2 + 2 * And(x / 2, m)
  {
    hide *;
    AndStep(x, 2 * m + 1);
  }

  lemma OrEven(x: nat, y: nat)
    ensures Or(2 * x, y) == y % 2 + 2 * Or(x, y / 2)
  {
  }

  // An `|` whose operands share no bit is a sum.
  lemma {:induction false} OrDisjoint(hi: nat, lo: nat, k: nat)
    requires lo < Pow2(k)
    ensures Or(hi * Pow2(k), lo) == hi * Pow2(k) + lo
  {
    if k == 0 {
      OrZero(hi);
    } else {
      var h := Pow2(k - 1);
      assert Pow2(k) == 2 * h;
      hide *;
      OrDisjoint(hi, lo / 2, k - 1);
      DoubleFactor(h, hi);
      var x := h * hi;
      assert hi * h == x && hi * (2 * h) == 2 * x;
      OrEven(x, lo);
    }
  }

  // The same as the C code writes it, `lo | x << k` in 64 bits.
  lemma OrShifted(lo: nat, x: nat, k: nat, p: nat, q: nat)
    requires Pow2(k) == p && p * q == TWO_64 && lo < p
    ensures Or(lo, x * p % TWO_64) == lo + x * p % TWO_64
  {
    hide Pow2, Or;
    var hi := x % q;
    assert x * p % TWO_64 == hi * p by {
      ScaledMod(x, p, q);
    }
    OrDisjoint(hi, lo, k);
    OrCommutes(lo, hi * p);
  }

  lemma ScaledMod(x: nat, p: nat, q: nat)
    requires p > 0 && q > 0
    ensures x * p % (p * q) == x % q * p && x % q * p >= 0 && p * q > 0
  {
    var d, r := x / q, x % q;
    assert x * p == (p * q) * d + r * p by {
      assert x == q * d + r;
      assert (q * d + r) * p == q * d * p + r * p;
    }
    assert r * p < q * p by {
      MulMonotone(p, r + 1, q);
    }
    DivModUnique(x * p, p * q, d, r * p);
  }

  lemma {:induction false} OrCommutes(x: nat, y: nat)
    ensures Or(x, y) == Or(y, x)
  {
    if x > 0 || y > 0 {
      OrCommutes(x / 2, y / 2);
    }
  }

  lemma {:induction false} OrZero(x: nat)
    ensures Or(x, 0) == x
  {
    if x > 0 {
      OrZero(x / 2);
    }
  }

  lemma XorStep(x: nat, y: nat)
    ensures Xor(x, y) / 2 == Xor(x / 2, y / 2) && Xor(x, y) % 2 == (if x % 2 == y % 2 then 0 else 1)
  {
  }

  lemma {:induction false} XorCancels(x: nat, y: nat)
    ensures Xor(x, Xor(x, y)) == y
    decreases x + y
  {
    if x > 0 || y > 0 {
      hide *;
      var z := Xor(x, y);
      XorCancels(x / 2, y / 2);
      XorStep(x, y);
      XorStep(x, z);
      var w := Xor(x, z);
      assert w / 2 == y / 2 && w % 2 == y % 2;
    }
  }

  lemma {:induction false} XorCommutes(x: nat, y: nat)
    ensures Xor(x, y) == Xor(y, x)
  {
    if x > 0 || y > 0 {
      XorCommutes(x / 2, y / 2);
    }
  }

  lemma {:induction false} XorZero(x: nat)
    ensures Xor(0, x) == x && Xor(x, 0) == x
  {
    if x > 0 {
      XorZero(x / 2);
    }
  }

  lemma {:induction false} XorBound(x: nat, y: nat, k: nat)
    requires x < Pow2(k) && y < Pow2(k)
    ensures Xor(x, y) < Pow2(k)
  {
    if k > 0 {
      XorBound(x / 2, y / 2, k - 1);
    }
  }

  // What the operators do to bit i, for every i.

  function Bit(x: nat, i: nat): nat {
    Shr(x, i) % 2
  }

  lemma BitShift(x: nat, i: nat)
    ensures Bit(x, 0) == x % 2
    ensures i > 0 ==> Bit(x, i) == Bit(x / 2, i - 1)
  {
    if i > 0 {
      ShrAdd(x, 1, i - 1);
      assert Shr(x, 1) == x / 2;
    }
  }

  lemma {:induction false} AndBit(x: nat, y: nat, i: nat)
    ensures Bit(And(x, y), i) == if Bit(x, i) == 1 && Bit(y, i) == 1 then 1 else 0
  {
    hide And, Bit;
    AndHalf(x, y);
    BitShift(x, i);
    BitShift(y, i);
    BitShift(And(x, y), i);
    if i > 0 {
      AndBit(x / 2, y / 2, i - 1);
    }
  }

  lemma AndHalf(x: nat, y: nat)
    ensures And(x, y) / 2 == And(x / 2, y / 2) && And(x, y) % 2 == if x % 2 == 1 && y % 2 == 1 then 1 else 0
  {
    AndStep(x, y);
    hide And;
    var z := And(x / 2, y / 2);
    assert x % 2 * (y % 2) == if x % 2 == 1 && y % 2 == 1 then 1 else 0;
  }

  lemma {:induction false} OrBit(x: nat, y: nat, i: nat)
    ensures Bit(Or(x, y), i) == if Bit(x, i) == 1 || Bit(y, i) == 1 then 1 else 0
  {
    hide Or, Bit;
    OrHalf(x, y);
    BitShift(x, i);
    BitShift(y, i);
    BitShift(Or(x, y), i);
    if i > 0 {
      OrBit(x / 2, y / 2, i - 1);
    }
  }

  lemma OrHalf(x: nat, y: nat)
    ensures Or(x, y) / 2 == Or(x / 2, y / 2) && Or(x, y) % 2 == if x % 2 == 1 || y % 2 == 1 then 1 else 0
  {
  }

  lemma {:induction false} XorBit(x: nat, y: nat, i: nat)
    ensures Bit(Xor(x, y), i) == (Bit(x, i) + Bit(y, i)) % 2
  {
    hide Xor, Bit;
    XorStep(x, y);
    BitShift(x, i);
    BitShift(y, i);
    BitShift(Xor(x, y), i);
    if i > 0 {
      XorBit(x / 2, y / 2, i - 1);
    } else {
      assert x % 2 + y % 2 == 0 || x % 2 + y % 2 == 1 || x % 2 + y % 2 == 2;
    }
  }

  // All n bits inverted.
  lemma {:induction false} ComplementBit(x: nat, n: nat, i: nat)
    requires x < Pow2(n) && i < n
    ensures Pow2(n) - 1 - x >= 0 && Bit(Pow2(n) - 1 - x, i) == 1 - Bit(x, i)
  {
    hide Bit;
    var h := Pow2(n - 1);
    assert Pow2(n) == 2 * h;
    BitShift(x, i);
    BitShift(2 * h - 1 - x, i);
    assert (2 * h - 1 - x) / 2 == h - 1 - x / 2 && (2 * h - 1 - x) % 2 == 1 - x % 2;
    if i > 0 {
      ComplementBit(x / 2, n - 1, i - 1);
    }
  }

  // Numbers with the same bits are the same.
  lemma {:induction false} SameBits(x: nat, y: nat, n: nat)
    requires x < Pow2(n) && y < Pow2(n) && forall i :: 0 <= i < n ==> Bit(x, i) == Bit(y, i)
    ensures x == y
  {
    hide Bit;
    if n > 0 {
      assert Pow2(n) == 2 * Pow2(n - 1);
      forall i | 0 <= i < n - 1
        ensures Bit(x / 2, i) == Bit(y / 2, i)
      {
        BitShift(x, i + 1);
        BitShift(y, i + 1);
      }
      SameBits(x / 2, y / 2, n - 1);
      BitShift(x, 0);
      BitShift(y, 0);
    }
  }

  // The low n bits of a number.
  lemma LowBit(x: nat, n: nat, i: nat)
    requires i < n
    ensures Bit(x % Pow2(n), i) == Bit(x, i)
  {
    hide Pow2, Shr;
    var q, r := x / Pow2(n), x % Pow2(n);
    QuotientRemainder(x, Pow2(n));
    ShrLow(r, q, n, i);
    PowHalf(n - i);
    EvenTerm(Shr(r, i), Pow2(n - i - 1), q);
  }

  lemma QuotientRemainder(x: nat, d: nat)
    requires d > 0
    ensures x == x % d + d * (x / d)
  {
  }

  lemma PowHalf(n: nat)
    requires n > 0
    ensures Pow2(n) == 2 * Pow2(n - 1)
  {
  }

  lemma EvenTerm(x: nat, h: nat, q: nat)
    ensures x + 2 * h * q >= 0 && (x + 2 * h * q) % 2 == x % 2
  {
    DivModUnique(x + 2 * h * q, 2, x / 2 + h * q, x % 2);
  }

  // Constant-time selection `x ^ (mask & (x ^ y))`: mask zero keeps x, an all-ones mask takes y.
  lemma {:induction false} SelectByMask(x: nat, y: nat, k: nat)
    requires x < Pow2(k) && y < Pow2(k)
    ensures Xor(x, And(0, Xor(x, y))) == x
    ensures Xor(x, And(Pow2(k) - 1, Xor(x, y))) == y
  {
    var z := Xor(x, y);
    assert And(0, z) == 0;
    XorZero(x);
    XorBound(x, y, k);
    AndMask(z, k);
    AndCommutes(Pow2(k) - 1, z);
    XorCancels(x, y);
    hide *;
    assert z % Pow2(k) == z by {
      DivModUnique(z, Pow2(k), 0, z);
    }
  }

  lemma Pow32()
    ensures Pow2(32) == TWO_32
  {
    assert Pow2(8) == 0x100;
    hide Pow2;
    Pow2Sum(8, 0x100, 8, 0x100, 16);
    Pow2Sum(16, 0x1_0000, 16, 0x1_0000, 32);
  }

  lemma Pow64()
    ensures Pow2(64) == TWO_64
  {
    assert Pow2(8) == 0x100;
    hide *;
    Pow2Sum(8, 0x100, 8, 0x100, 16);
    Pow2Sum(16, 0x1_0000, 16, 0x1_0000, 32);
    Pow2Sum(32, TWO_32, 32, TWO_32, 64);
  }

  lemma Pow255()
    ensures Pow2(255) == TWO_255
  {
    assert Pow2(5) == 0x20;
    hide *;
    Pow2Sum(5, 0x20, 5, 0x20, 10);
    Pow2Sum(10, 0x400, 5, 0x20, 15);
    Pow2Sum(15, 0x8000, 15, 0x8000, 30);
    Pow2Sum(30, 0x40000000, 30, 0x40000000, 60);
    Pow2Sum(60, TWO_60, 60, TWO_60, 120);
    Pow2Sum(120, TWO_120, 120, TWO_120, 240);
    Pow2Sum(240, TWO_240, 15, 0x8000, 255);
  }

  lemma Select64(x: u64, y: u64)
    ensures Xor(x, And(0, Xor(x, y))) == x && Xor(y, And(0, Xor(x, y))) == y
    ensures Xor(x, And(0xFFFF_FFFF_FFFF_FFFF, Xor(x, y))) == y
    ensures Xor(y, And(0xFFFF_FFFF_FFFF_FFFF, Xor(x, y))) == x
  {
    hide And, Xor, Pow2;
    Pow64();
    SelectByMask(x, y, 64);
    SelectByMask(y, x, 64);
    XorCommutes(x, y);
  }

  lemma {:induction false} AndCommutes(x: nat, y: nat)
    ensures And(x, y) == And(y, x)
  {
    if x > 0 && y > 0 {
      AndCommutes(x / 2, y / 2);
    }
  }

  // A mask can be applied to the low k bits and to the bits above them separately.
  lemma {:induction false} AndSplit(lo: nat, hi: nat, mLo: nat, mHi: nat, k: nat)
    requires lo < Pow2(k) && mLo < Pow2(k)
    ensures And(lo + Pow2(k) * hi, mLo + Pow2(k) * mHi) == And(lo, mLo) + Pow2(k) * And(hi, mHi)
  {
    if k > 0 {
      var h := Pow2(k - 1);
      assert Pow2(k) == 2 * h;
      hide *;
      AndSplit(lo / 2, hi, mLo / 2, mHi, k - 1);
      AndStep(lo, mLo);
      DoubleFactor(h, hi);
      DoubleFactor(h, mHi);
      DoubleFactor(h, And(hi, mHi));
      AndEvenParts(lo, h * hi, mLo, h * mHi);
    }
  }

  lemma AndEvenParts(lo: nat, x: nat, mLo: nat, y: nat)
    ensures And(lo + 2 * x, mLo + 2 * y) == (lo % 2) * (mLo % 2) + 2 * And(lo / 2 + x, mLo / 2 + y)
  {
    hide *;
    AndStep(lo + 2 * x, mLo + 2 * y);
  }

  lemma {:induction false} AndBound(x: nat, m: nat)
    ensures And(x, m) <= m
  {
    if x > 0 && m > 0 {
      AndBound(x / 2, m / 2);
    }
  }

  lemma DoubleFactor(h: nat, x: nat)
    ensures (2 * h) * x == 2 * (h * x) && h * x >= 0
  {
  }

  lemma AndStep(x: nat, m: nat)
    ensures And(x, m) == (x % 2) * (m % 2) + 2 * And(x / 2, m / 2)
  {
  }

  lemma HalfDivMod(x: nat, h: nat)
    requires h > 0
    ensures x / (2 * h) == x / 2 / h
    ensures x % (2 * h) / 2 == x / 2 % h && x % (2 * h) % 2 == x % 2
    ensures x % (2 * h) == 2 * (x / 2 % h) + x % 2
  {
    var q, r := x / 2 / h, x / 2 % h;
    assert x == (2 * h) * q + (2 * r + x % 2) by {
      assert x / 2 == h * q + r;
      assert 2 * (h * q) == (2 * h) * q;
    }
    DivModUnique(x, 2 * h, q, 2 * r + x % 2);
  }

  // Division and remainder.

  lemma MulAtLeast(d: int, n: int)
    requires d > 0 && n > 0
    ensures d * n >= d
  {
    assert d * n == d + d * (n - 1);
  }

  lemma DivModUnique(x: int, d: int, q: int, r: int)
    requires d > 0 && 0 <= r < d && x == d * q + r
    ensures x / d == q && x % d == r
  {
    var q', r' := x / d, x % d;
    assert x == d * q' + r' && 0 <= r' < d;
    assert d * (q' - q) == d * q' - d * q && d * (q - q') == d * q - d * q';
    if q' > q {
      MulAtLeast(d, q' - q);
    } else if q' < q {
      MulAtLeast(d, q - q');
    }
  }

  lemma ModAddMultiple(x: int, k: int, d: int)
    requires d > 0
    ensures (x + k * d) % d == x % d
  {
    DivModUnique(x + k * d, d, x / d + k, x % d);
  }

  lemma MulMonotone(p: nat, x: int, y: int)
    requires x <= y
    ensures p * x <= p * y
  {
    assert p * (y - x) >= 0;
    assert p * (y - x) == p * y - p * x;
  }

  lemma MulDistributes(p: int, x: int, y: int)
    ensures p * (x + y) == p * x + p * y
  {
  }

  lemma MulAssociates(p: int, x: int, y: int)
    ensures p * (x * y) == (p * x) * y
  {
  }

  lemma DivDiv(x: nat, a: nat, b: nat)
    requires a > 0 && b > 0
    ensures a * b > 0 && x / a / b == x / (a * b)
  {
    MulAtLeast(a, b);
    var q, r := x / a, x % a;
    DivDivParts(a, b, q, r, q / b, q % b);
    DivModUnique(x, a * b, q / b, a * (q % b) + r);
  }

  lemma DivDivParts(a: nat, b: nat, q: int, r: int, q': int, r': int)
    requires 0 <= r < a && 0 <= r' < b && q == b * q' + r'
    ensures a * q + r == (a * b) * q' + (a * r' + r) && 0 <= a * r' + r < a * b
  {
    MulDistributes(a, b * q', r');
    MulAssociates(a, b, q');
    MulMonotone(a, 0, r');
    MulMonotone(a, r' + 1, b);
    MulDistributes(a, r', 1);
  }

  // Dropping high bits first and low bits afterwards selects the same field as the other way round.
  lemma FieldOf(x: nat, s: nat, m: nat, r: nat, smr: nat)
    requires s > 0 && m > 0 && r > 0 && smr == s * (m * r)
    ensures smr > 0 && x % smr / s % m == x / s % m
  {
    MulAtLeast(m, r);
    MulAtLeast(s, m * r);
    var q, y := x / smr, x % smr;
    var y', z := y / s, y % s;
    MulAssociates(s, m * r, q);
    var k := (m * r) * q;
    MulDistributes(s, k, y');
    assert x == s * (k + y') + z;
    DivModUnique(x, s, k + y', z);
    MulAssociates(m, r, q);
    assert k == (r * q) * m;
    ModAddMultiple(y', r * q, m);
  }

  lemma ModMul(x: int, y: int, d: int)
    requires d > 0
    ensures ((x % d) * (y % d)) % d == (x * y) % d
  {
    var xq, yq := x / d, y / d;
    var xr, yr := x % d, y % d;
    calc {
      x * y;
      (d * xq + xr) * y;
      d * xq * y + xr * y;
      d * xq * y + xr * (d * yq + yr);
      { assert d * xq * y == (xq * y) * d; assert xr * (d * yq) == (xr * yq) * d; }
      xr * yr + (xq * y) * d + (xr * yq) * d;
      { assert (xq * y) * d + (xr * yq) * d == (xq * y + xr * yq) * d; }
      xr * yr + (xq * y + xr * yq) * d;
    }
    ModAddMultiple(xr * yr, xq * y + xr * yq, d);
  }

  lemma ModAdd(x: int, y: int, d: int)
    requires d > 0
    ensures (x % d + y % d) % d == (x + y) % d
    ensures (x % d - y % d) % d == (x - y) % d
  {
    ModAddMultiple(x % d + y % d, x / d + y / d, d);
    assert x + y == x % d + y % d + (x / d + y / d) * d;
    ModAddMultiple(x % d - y % d, x / d - y / d, d);
    assert x - y == x % d - y % d + (x / d - y / d) * d;
  }

  // Byte strings.

  lemma Regroup(d: seq<u8>, b: seq<u8>, c: seq<u8>, n: nat)
    requires n <= |c|
    ensures (d + (b + c[..n])) + c[n..] == (d + b) + c
    ensures n == |c| ==> d + (b + c[..n]) == (d + b) + c
    ensures b == [] ==> d + c == (d + b) + c
  {
    assert c == c[..n] + c[n..];
    if n == |c| {
      assert c[..n] == c;
    }
    if b == [] {
      assert d + b == d;
    }
  }

  lemma WholeThenTail(d: seq<u8>, x: seq<u8>, y: seq<u8>)
    ensures d + (x + y) == (d + x) + y && (x == [] ==> d + x == d)
  {
  }

  // A byte string that arrives in pieces.
  function Concat(chunks: seq<seq<u8>>): seq<u8> {
    if |chunks| == 0 then [] else chunks[0] + Concat(chunks[1..])
  }

  // A read yields at least one byte, and no more than there is room for or has been sent.
  function ReadSize(wanted: nat, room: nat, available: nat): (n: nat)
    requires room > 0 && available > 0
    ensures 0 < n <= room && n <= available
  {
    var n := if wanted == 0 then 1 else wanted;
    if n > room then (if room > available then available else room) else if n > available then available else n
  }

  // Little-endian byte strings.

  function LeNat(s: seq<u8>): nat {
    if |s| == 0 then 0 else s[0] + 0x100 * LeNat(s[1..])
  }

  function LeBytes(x: nat, n: nat): (s: seq<u8>)
    ensures |s| == n
  {
    if n == 0 then [] else [x % 0x100] + LeBytes(x / 0x100, n - 1)
  }

  function Pow256(n: nat): (r: nat)
    ensures r > 0
  {
    if n == 0 then 1 else 0x100 * Pow256(n - 1)
  }

  lemma {:induction false} LeNatBytes(x: nat, n: nat)
    requires x < Pow256(n)
    ensures LeNat(LeBytes(x, n)) == x
  {
    if n > 0 {
      LeNatBytes(x / 0x100, n - 1);
      assert LeBytes(x, n)[1..] == LeBytes(x / 0x100, n - 1);
    }
  }

  lemma {:induction false} LeBytesNat(s: seq<u8>)
    ensures LeNat(s) < Pow256(|s|) && LeBytes(LeNat(s), |s|) == s
  {
    if |s| > 0 {
      LeBytesNat(s[1..]);
      assert LeNat(s) / 0x100 == LeNat(s[1..]) && LeNat(s) % 0x100 == s[0];
      assert s == [s[0]] + s[1..];
    }
  }

  lemma {:induction false} LeNatConcat(s: seq<u8>, t: seq<u8>)
    ensures LeNat(s + t) == LeNat(s) + Pow256(|s|) * LeNat(t)
  {
    if |s| == 0 {
      assert s + t == t;
    } else {
      LeNatConcat(s[1..], t);
      assert (s + t)[1..] == s[1..] + t;
      assert Pow256(|s|) * LeNat(t) == 0x100 * (Pow256(|s| - 1) * LeNat(t));
    }
  }

  // Reading n bytes at offset i selects bits 8i up to 8(i + n).
  lemma LeNatSlice(s: seq<u8>, i: nat, n: nat)
    requires i + n <= |s|
    ensures LeNat(s[i..i + n]) == LeNat(s) / Pow256(i) % Pow256(n)
  {
    hide LeNat, LeBytes, Pow256;
    var lo, mid, hi := s[..i], s[i..i + n], s[i + n..];
    assert s == lo + (mid + hi);
    LeNatConcat(lo, mid + hi);
    LeNatConcat(mid, hi);
    LeBytesNat(lo);
    LeBytesNat(mid);
    DivModUnique(LeNat(s), Pow256(i), LeNat(mid + hi), LeNat(lo));
    DivModUnique(LeNat(mid + hi), Pow256(n), LeNat(hi), LeNat(mid));
  }

  function LoadU64(s: seq<u8>, i: nat): (x: u64)
    requires i + 8 <= |s|
  {
    LeBytesNat(s[i..i + 8]);
    Pow256Offsets();
    LeNat(s[i..i + 8])
  }

  lemma Pow256Offsets()
    ensures Pow256(0) == 1 && Pow256(6) == TWO_48 && Pow256(8) == TWO_64
    ensures Pow256(12) == TWO_96 && Pow256(16) == TWO_128 && Pow256(19) == TWO_152
    ensures Pow256(24) == TWO_192 && Pow256(32) == TWO_256
  {
    assert Pow256(6) == TWO_48;
    assert Pow256(8) == TWO_64;
    assert Pow256(12) == TWO_48 * Pow256(6);
    assert Pow256(16) == TWO_32 * Pow256(12);
    assert Pow256(19) == 0x1000000 * Pow256(16);
    assert Pow256(24) == TWO_40 * Pow256(19);
    assert Pow256(28) == TWO_32 * Pow256(24);
    assert Pow256(32) == TWO_32 * Pow256(28);
  }

  lemma ConcatWord(s: seq<u8>, t: seq<u8>)
    requires |s| == 8
    ensures LeNat(s + t) == LeNat(s) + TWO_64 * LeNat(t)
  {
    LeNatConcat(s, t);
    Pow256Offsets();
  }

  lemma FourBlocks(b0: seq<u8>, b1: seq<u8>, b2: seq<u8>, b3: seq<u8>)
    requires |b0| == 8 && |b1| == 8 && |b2| == 8
    ensures LeNat(b0 + (b1 + (b2 + b3))) ==
            LeNat(b0) + LeNat(b1) * TWO_64 + LeNat(b2) * TWO_128 + LeNat(b3) * TWO_192
  {
    hide LeNat;
    ConcatWord(b2, b3);
    ConcatWord(b1, b2 + b3);
    ConcatWord(b0, b1 + (b2 + b3));
  }

  lemma FourWords(s: seq<u8>)
    requires |s| == 32
    ensures LeNat(s) == LeNat(s[0..8]) + LeNat(s[8..16]) * TWO_64 + LeNat(s[16..24]) * TWO_128 +
                        LeNat(s[24..32]) * TWO_192
  {
    hide LeNat;
    FourBlocks(s[0..8], s[8..16], s[16..24], s[24..32]);
    assert s[16..24] + s[24..32] == s[16..32];
    assert s[8..16] + s[16..32] == s[8..32];
    assert s[0..8] + s[8..32] == s;
  }

  lemma StoredWord(w: u64)
    ensures LeNat(LeBytes(w, 8)) == w
  {
    Pow256Offsets();
    LeNatBytes(w, 8);
  }

  method StoreU64(out: array<u8>, i: nat, x: u64)
    requires i + 8 <= out.Length
    modifies out
    ensures out[i..i + 8] == LeBytes(x, 8)
    ensures out[..i] == old(out[..i]) && out[i + 8..] == old(out[i + 8..])
  {
    hide LeBytes;
    var rest := x;
    ghost var head: seq<u8> := [];
    assert head + LeBytes(x, 8) == LeBytes(x, 8);
    for k := 0 to 8
      invariant rest >= 0 && |head| == k && out[i..i + k] == head && LeBytes(x, 8) == head + LeBytes(rest, 8 - k)
      invariant out[..i] == old(out[..i]) && out[i + 8..] == old(out[i + 8..])
    {
      LeBytesStep(rest, 8 - k);
      out[i + k] := rest % 0x100;
      head := head + [rest % 0x100];
      rest := rest / 0x100;
    }
    LeBytesStep(rest, 0);
  }

  lemma LeBytesStep(x: nat, n: nat)
    ensures n == 0 ==> LeBytes(x, n) == []
    ensures n > 0 ==> LeBytes(x, n) == [x % 0x100] + LeBytes(x / 0x100, n - 1)
  {
  }

  // Four consecutive 64-bit stores.
  method StoreFour(out: array<u8>, w0: u64, w1: u64, w2: u64, w3: u64)
    requires out.Length == 32
    modifies out
    ensures LeNat(out[..]) == w0 + w1 * TWO_64 + w2 * TWO_128 + w3 * TWO_192
  {
    hide LeNat, LeBytes;
    StoreU64(out, 0, w0);
    StoreU64(out, 8, w1);
    assert out[0..8] == LeBytes(w0, 8);
    StoreU64(out, 16, w2);
    assert out[0..8] == LeBytes(w0, 8) && out[8..16] == LeBytes(w1, 8) by {
      assert out[0..8] == out[..16][0..8] && out[8..16] == out[..16][8..16];
    }
    ghost var low := out[..24];
    assert low[0..8] == LeBytes(w0, 8) && low[8..16] == LeBytes(w1, 8) && low[16..24] == LeBytes(w2, 8);
    StoreU64(out, 24, w3);
    assert out[..24] == low;
    FourWords(out[..]);
    StoredWord(w0);
    StoredWord(w1);
    StoredWord(w2);
    StoredWord(w3);
    assert out[..][0..8] == low[0..8] && out[..][8..16] == low[8..16] && out[..][16..24] == low[16..24];
    assert out[..][24..32] == out[24..32];
  }

  // Big-endian byte strings.

  function BigEndian(x: nat, n: nat): (s: seq<u8>)
    ensures |s| == n
  {
    if n == 0 then [] else BigEndian(x / 0x100, n - 1) + [x % 0x100]
  }

  function BeNat(s: seq<u8>): nat {
    if |s| == 0 then 0 else 0x100 * BeNat(s[..|s| - 1]) + s[|s| - 1]
  }

  lemma {:induction false} BeNatBytes(x: nat, n: nat)
    requires x < Pow256(n)
    ensures BeNat(BigEndian(x, n)) == x
  {
    if n > 0 {
      BeNatBytes(x / 0x100, n - 1);
      assert BigEndian(x, n)[..n - 1] == BigEndian(x / 0x100, n - 1);
    }
  }

  // `mem_storeU64BE` and `mem_storeU32BE`: n bytes, most significant first.
  method StoreBigEndian(out: array<u8>, i: nat, x: nat, n: nat)
    requires i + n <= out.Length
    modifies out
    ensures out[..i] == old(out[..i]) && out[i..i + n] == BigEndian(x, n) && out[i + n..] == old(out[i + n..])
  {
    hide BigEndian;
    var rest, k := x, n;
    ghost var tail: seq<u8> := [];
    BigEndianStep(x, 0);
    while k > 0
      invariant 0 <= k <= n && rest >= 0
      invariant out[..i] == old(out[..i]) && out[i + n..] == old(out[i + n..])
      invariant out[i + k..i + n] == tail && BigEndian(x, n) == BigEndian(rest, k) + tail
    {
      BigEndianStep(rest, k);
      k := k - 1;
      out[i + k] := rest % 0x100;
      tail := [rest % 0x100] + tail;
      rest := rest / 0x100;
    }
    BigEndianStep(rest, 0);
    assert [] + tail == tail;
  }

  // Where the bytes of a number go, and what four bytes amount to.

  lemma {:induction false} LeBytesAt(x: nat, n: nat, i: nat)
    requires i < n
    ensures LeBytes(x, n)[i] == Shr(x, 8 * i) % 0x100
  {
    hide Shr;
    ShrByte(x, i);
    if i > 0 {
      LeBytesAt(x / 0x100, n - 1, i - 1);
    }
  }

  lemma {:induction false} BigEndianAt(x: nat, n: nat, i: nat)
    requires i < n
    ensures BigEndian(x, n)[n - 1 - i] == Shr(x, 8 * i) % 0x100
  {
    hide Shr;
    ShrByte(x, i);
    if i > 0 {
      BigEndianAt(x / 0x100, n - 1, i - 1);
    }
  }

  lemma ShrByte(x: nat, i: nat)
    ensures Shr(x, 0) == x
    ensures i > 0 ==> Shr(x, 8 * i) == Shr(x / 0x100, 8 * (i - 1))
  {
    assert Shr(x, 0) == x;
    hide Shr;
    if i > 0 {
      ShrAdd(x, 8, 8 * (i - 1));
      ShrEight(x);
    }
  }

  lemma ShrEight(x: nat)
    ensures Shr(x, 8) == x / 0x100
  {
    ShrAdd(x, 4, 4);
    ShrFour(x);
    ShrFour(x / 0x10);
  }

  lemma ShrFour(x: nat)
    ensures Shr(x, 4) == x / 0x10
  {
    assert Shr(x, 1) == x / 2 && Shr(x, 2) == x / 2 / 2 && Shr(x, 3) == x / 2 / 2 / 2;
  }

  lemma BeNatFour(s: seq<u8>)
    requires |s| == 4
    ensures BeNat(s) == s[0] as int * 0x1000000 + s[1] as int * 0x10000 + s[2] as int * 0x100 + s[3]
  {
    assert s[..3][..2] == s[..2] && s[..2][..1] == s[..1] && s[..1][..0] == [];
    assert BeNat(s[..1]) == s[0];
    assert BeNat(s[..2]) == 0x100 * BeNat(s[..1]) + s[1];
    assert BeNat(s[..3]) == 0x100 * BeNat(s[..2]) + s[2];
  }

  lemma BigEndianFour(s: seq<u8>)
    requires |s| == 4
    ensures BigEndian(BeNat(s), 4) == s
  {
    BeNatFour(s);
    var x, a, b, c := BeNat(s), s[0] as int, s[1] as int, s[2] as int;
    hide BeNat;
    DivModUnique(x, 0x100, a * 0x10000 + b * 0x100 + c, s[3]);
    DivModUnique(a * 0x10000 + b * 0x100 + c, 0x100, a * 0x100 + b, c);
    DivModUnique(a * 0x100 + b, 0x100, a, b);
    assert BigEndian(a, 1) == [s[0]];
    assert BigEndian(a * 0x100 + b, 2) == [s[0], s[1]];
    assert BigEndian(a * 0x10000 + b * 0x100 + c, 3) == [s[0], s[1], s[2]];
  }

  lemma BigEndianStep(x: nat, n: nat)
    ensures n == 0 ==> BigEndian(x, n) == []
    ensures n > 0 ==> BigEndian(x, n) == BigEndian(x / 0x100, n - 1) + [x % 0x100]
  {
  }
}
