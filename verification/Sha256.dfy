/** SHA-256: hc/core/hc/crypto/sha256.c against FIPS 180-4 (functions in section 4.1.2, padding in section 5.1.1,
    computation in section 6.2.2). A word is a number below 2^32; sums are reduced modulo 2^32 where the C code's
    `uint32_t` wraps. */
module Sha256 {
  import opened Words
  import opened Memory

  type Word = u32

  // FIPS 180-4.

  const K0: seq<Word> :=
    [0x428a2f98, 0x71374491, 0xb5c0fbcf, 0xe9b5dba5, 0x3956c25b, 0x59f111f1, 0x923f82a4, 0xab1c5ed5]
  const K1: seq<Word> :=
    [0xd807aa98, 0x12835b01, 0x243185be, 0x550c7dc3, 0x72be5d74, 0x80deb1fe, 0x9bdc06a7, 0xc19bf174]
  const K2: seq<Word> :=
    [0xe49b69c1, 0xefbe4786, 0x0fc19dc6, 0x240ca1cc, 0x2de92c6f, 0x4a7484aa, 0x5cb0a9dc, 0x76f988da]
  const K3: seq<Word> :=
    [0x983e5152, 0xa831c66d, 0xb00327c8, 0xbf597fc7, 0xc6e00bf3, 0xd5a79147, 0x06ca6351, 0x14292967]
  const K4: seq<Word> :=
    [0x27b70a85, 0x2e1b2138, 0x4d2c6dfc, 0x53380d13, 0x650a7354, 0x766a0abb, 0x81c2c92e, 0x92722c85]
  const K5: seq<Word> :=
    [0xa2bfe8a1, 0xa81a664b, 0xc24b8b70, 0xc76c51a3, 0xd192e819, 0xd6990624, 0xf40e3585, 0x106aa070]
  const K6: seq<Word> :=
    [0x19a4c116, 0x1e376c08, 0x2748774c, 0x34b0bcb5, 0x391c0cb3, 0x4ed8aa4a, 0x5b9cca4f, 0x682e6ff3]
  const K7: seq<Word> :=
    [0x748f82ee, 0x78a5636f, 0x84c87814, 0x8cc70208, 0x90befffa, 0xa4506ceb, 0xbef9a3f7, 0xc67178f2]

  const K: seq<Word> := K0 + K1 + K2 + K3 + K4 + K5 + K6 + K7

  const INITIAL: seq<Word> := [0x6a09e667, 0xbb67ae85, 0x3c6ef372, 0xa54ff53a,
                               0x510e527f, 0x9b05688c, 0x1f83d9ab, 0x5be0cd19]

  // The constants are the first 32 bits of the fractional parts of the cube roots of the first 64 primes and of the
  // square roots of the first 8, sections 4.2.2 and 5.3.3.

  const PRIMES0: seq<int> := [2, 3, 5, 7, 11, 13, 17, 19]
  const PRIMES1: seq<int> := [23, 29, 31, 37, 41, 43, 47, 53]
  const PRIMES2: seq<int> := [59, 61, 67, 71, 73, 79, 83, 89]
  const PRIMES3: seq<int> := [97, 101, 103, 107, 109, 113, 127, 131]
  const PRIMES4: seq<int> := [137, 139, 149, 151, 157, 163, 167, 173]
  const PRIMES5: seq<int> := [179, 181, 191, 193, 197, 199, 211, 223]
  const PRIMES6: seq<int> := [227, 229, 233, 239, 241, 251, 257, 263]
  const PRIMES7: seq<int> := [269, 271, 277, 281, 283, 293, 307, 311]

  const PRIMES: seq<int> := PRIMES0 + PRIMES1 + PRIMES2 + PRIMES3 + PRIMES4 + PRIMES5 + PRIMES6 + PRIMES7

  function WholeSquareRoot(p: int): int {
    if p < 4 then 1 else if p < 9 then 2 else if p < 16 then 3 else 4
  }

  function WholeCubeRoot(p: int): int {
    if p < 8 then 1 else if p < 27 then 2 else if p < 64 then 3 else if p < 125 then 4 else if p < 216 then 5 else 6
  }

  // The whole part of the root and the bits behind it, shifted by 32 bits, are the root rounded down.

  predicate SquareRootBits(p: int, bits: int) {
    var x := WholeSquareRoot(p) * 0x1_0000_0000 + bits;
    x * x <= p * 0x1_0000_0000_0000_0000 < (x + 1) * (x + 1)
  }

  predicate CubeRootBits(p: int, bits: int) {
    var x := WholeCubeRoot(p) * 0x1_0000_0000 + bits;
    x * x * x <= p * 0x1_0000_0000_0000_0000_0000_0000 < (x + 1) * (x + 1) * (x + 1)
  }

  predicate CubeRoots(ps: seq<int>, ks: seq<Word>) {
    |ps| == |ks| && forall i :: 0 <= i < |ps| ==> CubeRootBits(ps[i], ks[i])
  }

  lemma InitialRoots(i: nat)
    requires i < 8
    ensures SquareRootBits(PRIMES0[i], INITIAL[i])
  {
    assert SquareRootBits(2, 0x6a09e667) && SquareRootBits(3, 0xbb67ae85) && SquareRootBits(5, 0x3c6ef372) &&
           SquareRootBits(7, 0xa54ff53a) && SquareRootBits(11, 0x510e527f) && SquareRootBits(13, 0x9b05688c) &&
           SquareRootBits(17, 0x1f83d9ab) && SquareRootBits(19, 0x5be0cd19);
    hide SquareRootBits;
  }

  lemma RowRoots0()
    ensures CubeRoots(PRIMES0, K0)
  {
    assert CubeRootBits(2, 0x428a2f98) && CubeRootBits(3, 0x71374491) && CubeRootBits(5, 0xb5c0fbcf) &&
           CubeRootBits(7, 0xe9b5dba5) && CubeRootBits(11, 0x3956c25b) && CubeRootBits(13, 0x59f111f1) &&
           CubeRootBits(17, 0x923f82a4) && CubeRootBits(19, 0xab1c5ed5);
    hide CubeRootBits;
  }

  lemma RowRoots1()
    ensures CubeRoots(PRIMES1, K1)
  {
    assert CubeRootBits(23, 0xd807aa98) && CubeRootBits(29, 0x12835b01) && CubeRootBits(31, 0x243185be) &&
           CubeRootBits(37, 0x550c7dc3) && CubeRootBits(41, 0x72be5d74) && CubeRootBits(43, 0x80deb1fe) &&
           CubeRootBits(47, 0x9bdc06a7) && CubeRootBits(53, 0xc19bf174);
    hide CubeRootBits;
  }

  lemma RowRoots2()
    ensures CubeRoots(PRIMES2, K2)
  {
    assert CubeRootBits(59, 0xe49b69c1) && CubeRootBits(61, 0xefbe4786) && CubeRootBits(67, 0x0fc19dc6) &&
           CubeRootBits(71, 0x240ca1cc) && CubeRootBits(73, 0x2de92c6f) && CubeRootBits(79, 0x4a7484aa) &&
           CubeRootBits(83, 0x5cb0a9dc) && CubeRootBits(89, 0x76f988da);
    hide CubeRootBits;
  }

  lemma RowRoots3()
    ensures CubeRoots(PRIMES3, K3)
  {
    assert CubeRootBits(97, 0x983e5152) && CubeRootBits(101, 0xa831c66d) && CubeRootBits(103, 0xb00327c8) &&
           CubeRootBits(107, 0xbf597fc7) && CubeRootBits(109, 0xc6e00bf3) && CubeRootBits(113, 0xd5a79147) &&
           CubeRootBits(127, 0x06ca6351) && CubeRootBits(131, 0x14292967);
    hide CubeRootBits;
  }

  lemma RowRoots4()
    ensures CubeRoots(PRIMES4, K4)
  {
    assert CubeRootBits(137, 0x27b70a85) && CubeRootBits(139, 0x2e1b2138) && CubeRootBits(149, 0x4d2c6dfc) &&
           CubeRootBits(151, 0x53380d13) && CubeRootBits(157, 0x650a7354) && CubeRootBits(163, 0x766a0abb) &&
           CubeRootBits(167, 0x81c2c92e) && CubeRootBits(173, 0x92722c85);
    hide CubeRootBits;
  }

  lemma RowRoots5()
    ensures CubeRoots(PRIMES5, K5)
  {
    assert CubeRootBits(179, 0xa2bfe8a1) && CubeRootBits(181, 0xa81a664b) && CubeRootBits(191, 0xc24b8b70) &&
           CubeRootBits(193, 0xc76c51a3) && CubeRootBits(197, 0xd192e819) && CubeRootBits(199, 0xd6990624) &&
           CubeRootBits(211, 0xf40e3585) && CubeRootBits(223, 0x106aa070);
    hide CubeRootBits;
  }

  lemma RowRoots6()
    ensures CubeRoots(PRIMES6, K6)
  {
    assert CubeRootBits(227, 0x19a4c116) && CubeRootBits(229, 0x1e376c08) && CubeRootBits(233, 0x2748774c) &&
           CubeRootBits(239, 0x34b0bcb5) && CubeRootBits(241, 0x391c0cb3) && CubeRootBits(251, 0x4ed8aa4a) &&
           CubeRootBits(257, 0x5b9cca4f) && CubeRootBits(263, 0x682e6ff3);
    hide CubeRootBits;
  }

  lemma RowRoots7()
    ensures CubeRoots(PRIMES7, K7)
  {
    assert CubeRootBits(269, 0x748f82ee) && CubeRootBits(271, 0x78a5636f) && CubeRootBits(277, 0x84c87814) &&
           CubeRootBits(281, 0x8cc70208) && CubeRootBits(283, 0x90befffa) && CubeRootBits(293, 0xa4506ceb) &&
           CubeRootBits(307, 0xbef9a3f7) && CubeRootBits(311, 0xc67178f2);
    hide CubeRootBits;
  }

  lemma RoundConstantRoots(i: nat)
    requires i < 64
    ensures CubeRootBits(PRIMES[i], K[i])
  {
    RowRoots0();
    RowRoots1();
    RowRoots2();
    RowRoots3();
    RowRoots4();
    RowRoots5();
    RowRoots6();
    RowRoots7();
    hide CubeRootBits;
    CubeRootsJoin(PRIMES0, K0, PRIMES1, K1);
    CubeRootsJoin(PRIMES0 + PRIMES1, K0 + K1, PRIMES2, K2);
    CubeRootsJoin(PRIMES0 + PRIMES1 + PRIMES2, K0 + K1 + K2, PRIMES3, K3);
    CubeRootsJoin(PRIMES0 + PRIMES1 + PRIMES2 + PRIMES3, K0 + K1 + K2 + K3, PRIMES4, K4);
    CubeRootsJoin(PRIMES0 + PRIMES1 + PRIMES2 + PRIMES3 + PRIMES4, K0 + K1 + K2 + K3 + K4, PRIMES5, K5);
    CubeRootsJoin(PRIMES0 + PRIMES1 + PRIMES2 + PRIMES3 + PRIMES4 + PRIMES5, K0 + K1 + K2 + K3 + K4 + K5, PRIMES6, K6);
    CubeRootsJoin(PRIMES0 + PRIMES1 + PRIMES2 + PRIMES3 + PRIMES4 + PRIMES5 + PRIMES6,
                  K0 + K1 + K2 + K3 + K4 + K5 + K6, PRIMES7, K7);
  }

  lemma CubeRootsJoin(ps: seq<int>, ks: seq<Word>, qs: seq<int>, ls: seq<Word>)
    requires CubeRoots(ps, ks) && CubeRoots(qs, ls)
    ensures CubeRoots(ps + qs, ks + ls)
  {
    hide CubeRootBits;
  }

  // Reduction of a sum to 32 bits.
  function Wrap(x: nat): Word {
    x % TWO_32
  }

  lemma WrapIs(x: nat)
    ensures Wrap(x) == x % 0x1_0000_0000 && (x < 0x1_0000_0000 ==> Wrap(x) == x)
  {
  }

  // The operators on words: rotation to the right, and, exclusive or, complement.

  function Rotr(x: Word, n: nat): Word
    requires 0 < n < 32
  {
    RotrBound(x, n);
    Shr(x, n) + x % Pow2(n) * Pow2(32 - n)
  }

  lemma RotrBound(x: Word, n: nat)
    requires 0 < n < 32
    ensures Shr(x, n) < Pow2(32 - n) && 0 <= Shr(x, n) + x % Pow2(n) * Pow2(32 - n) < TWO_32
  {
    hide Shr, Pow2;
    Pow32();
    var p, q := Pow2(n), Pow2(32 - n);
    assert p * q == TWO_32 by {
      Pow2Add(n, 32 - n);
    }
    ShrSmall(x, 32 - n, n);
    JoinBound(Shr(x, n), x % p, p, q);
  }

  lemma JoinBound(lo: nat, hi: nat, p: nat, q: nat)
    requires lo < q && hi < p
    ensures 0 <= lo + hi * q < p * q
  {
    MulMonotone(q, hi + 1, p);
    MulDistributes(q, hi, 1);
  }

  function AndWord(x: Word, y: Word): Word {
    AndBound(x, y);
    And(x, y)
  }

  function XorWord(x: Word, y: Word): Word {
    Pow32();
    XorBound(x, y, 32);
    Xor(x, y)
  }

  function NotWord(x: Word): Word {
    0xFFFF_FFFF - x
  }

  function Ch(x: Word, y: Word, z: Word): Word {
    XorWord(AndWord(x, y), AndWord(NotWord(x), z))
  }

  function Maj(x: Word, y: Word, z: Word): Word {
    XorWord(XorWord(AndWord(x, y), AndWord(x, z)), AndWord(y, z))
  }

  function BigSigma0(x: Word): Word {
    XorWord(XorWord(Rotr(x, 2), Rotr(x, 13)), Rotr(x, 22))
  }

  function BigSigma1(x: Word): Word {
    XorWord(XorWord(Rotr(x, 6), Rotr(x, 11)), Rotr(x, 25))
  }

  function SmallSigma0(x: Word): Word {
    XorWord(XorWord(Rotr(x, 7), Rotr(x, 18)), x / 8)
  }

  function SmallSigma1(x: Word): Word {
    XorWord(XorWord(Rotr(x, 17), Rotr(x, 19)), x / 0x400)
  }

  // What they are bit by bit. These laws, not the definitions above, are section 4.1.2 of FIPS 180-4.

  lemma RotrBit(x: Word, n: nat, i: nat)
    requires 0 < n < 32 && i < 32
    ensures Bit(Rotr(x, n), i) == Bit(x, (i + n) % 32)
  {
    hide Shr, Pow2, Rotr;
    var lo, hi, m := Shr(x, n), x % Pow2(n), 32 - n;
    RotrParts(x, n, lo, hi);
    if i < m {
      JoinedLow(lo, hi, m, i);
      ShrAdd(x, n, i);
    } else {
      JoinedHigh(lo, hi, m, i - m);
      LowBit(x, n, i - m);
    }
  }

  lemma RotrParts(x: Word, n: nat, lo: nat, hi: nat)
    requires 0 < n < 32 && lo == Shr(x, n) && hi == x % Pow2(n)
    ensures Rotr(x, n) == lo + Pow2(32 - n) * hi && lo < Pow2(32 - n)
  {
    hide Shr, Pow2;
    RotrBound(x, n);
    MulCommutes(hi, Pow2(32 - n));
  }

  lemma JoinedLow(lo: nat, hi: nat, m: nat, i: nat)
    requires i < m && lo + Pow2(m) * hi >= 0
    ensures Bit(lo + Pow2(m) * hi, i) == Bit(lo, i)
  {
    hide Shr, Pow2;
    ShrLow(lo, hi, m, i);
    PowHalf(m - i);
    EvenTerm(Shr(lo, i), Pow2(m - i - 1), hi);
  }

  lemma JoinedHigh(lo: nat, hi: nat, m: nat, j: nat)
    requires lo < Pow2(m) && lo + Pow2(m) * hi >= 0
    ensures Bit(lo + Pow2(m) * hi, m + j) == Bit(hi, j)
  {
    hide Shr, Pow2;
    ShrAdd(lo + Pow2(m) * hi, m, j);
    ShrLow(lo, hi, m, m);
    ShrPast(lo, m);
    PowZero();
  }

  lemma MulCommutes(x: int, y: int)
    ensures x * y == y * x
  {
  }

  lemma PowZero()
    ensures Pow2(0) == 1
  {
  }

  lemma AndWordBit(x: Word, y: Word, i: nat)
    ensures Bit(AndWord(x, y), i) == if Bit(x, i) == 1 && Bit(y, i) == 1 then 1 else 0
  {
    hide And, Bit;
    AndBit(x, y, i);
  }

  lemma XorWordBit(x: Word, y: Word, i: nat)
    ensures Bit(XorWord(x, y), i) == (Bit(x, i) + Bit(y, i)) % 2
  {
    hide Xor, Bit;
    XorBit(x, y, i);
  }

  lemma Xor3Bit(x: Word, y: Word, z: Word, i: nat)
    ensures Bit(XorWord(XorWord(x, y), z), i) == (Bit(x, i) + Bit(y, i) + Bit(z, i)) % 2
  {
    hide XorWord, Bit;
    XorWordBit(x, y, i);
    XorWordBit(XorWord(x, y), z, i);
  }

  lemma NotWordBit(x: Word, i: nat)
    requires i < 32
    ensures Bit(NotWord(x), i) == 1 - Bit(x, i)
  {
    hide Bit;
    Pow32();
    ComplementBit(x, 32, i);
  }

  // Ch takes bit i of y where x has a one and of z where x has a zero; Maj takes the majority.
  lemma ChBit(x: Word, y: Word, z: Word, i: nat)
    requires i < 32
    ensures Bit(Ch(x, y, z), i) == if Bit(x, i) == 1 then Bit(y, i) else Bit(z, i)
    ensures Bit(Maj(x, y, z), i) == if Bit(x, i) + Bit(y, i) + Bit(z, i) >= 2 then 1 else 0
  {
    hide AndWord, XorWord, NotWord, Shr;
    AndWordBit(x, y, i);
    NotWordBit(x, i);
    AndWordBit(NotWord(x), z, i);
    XorWordBit(AndWord(x, y), AndWord(NotWord(x), z), i);
    AndWordBit(x, z, i);
    AndWordBit(y, z, i);
    Xor3Bit(AndWord(x, y), AndWord(x, z), AndWord(y, z), i);
  }

  lemma BigSigmaBits(x: Word, i: nat)
    requires i < 32
    ensures Bit(BigSigma0(x), i) == (Bit(x, (i + 2) % 32) + Bit(x, (i + 13) % 32) + Bit(x, (i + 22) % 32)) % 2
    ensures Bit(BigSigma1(x), i) == (Bit(x, (i + 6) % 32) + Bit(x, (i + 11) % 32) + Bit(x, (i + 25) % 32)) % 2
  {
    hide Rotr, XorWord, Bit;
    RotrBit(x, 2, i);
    RotrBit(x, 13, i);
    RotrBit(x, 22, i);
    Xor3Bit(Rotr(x, 2), Rotr(x, 13), Rotr(x, 22), i);
    RotrBit(x, 6, i);
    RotrBit(x, 11, i);
    RotrBit(x, 25, i);
    Xor3Bit(Rotr(x, 6), Rotr(x, 11), Rotr(x, 25), i);
  }

  // Bits shifted in from above are zero.
  lemma SmallSigmaBits(x: Word, i: nat)
    requires i < 32
    ensures Bit(SmallSigma0(x), i) ==
            (Bit(x, (i + 7) % 32) + Bit(x, (i + 18) % 32) + (if i + 3 < 32 then Bit(x, i + 3) else 0)) % 2
    ensures Bit(SmallSigma1(x), i) ==
            (Bit(x, (i + 17) % 32) + Bit(x, (i + 19) % 32) + (if i + 10 < 32 then Bit(x, i + 10) else 0)) % 2
  {
    hide Rotr, XorWord, Bit;
    RotrBit(x, 7, i);
    RotrBit(x, 18, i);
    ShiftedBit(x, 3, x / 8, i);
    Xor3Bit(Rotr(x, 7), Rotr(x, 18), x / 8, i);
    RotrBit(x, 17, i);
    RotrBit(x, 19, i);
    ShiftedBit(x, 10, x / 0x400, i);
    Xor3Bit(Rotr(x, 17), Rotr(x, 19), x / 0x400, i);
  }

  lemma ShiftedBit(x: Word, n: nat, y: nat, i: nat)
    requires i < 32 && ((n == 3 && y == x / 8) || (n == 10 && y == x / 0x400))
    ensures Bit(y, i) == if i + n < 32 then Bit(x, i + n) else 0
  {
    ShrShifts(x);
    hide Pow2, Shr;
    ShrAdd(x, n, i);
    Pow32();
    if i + n >= 32 {
      ShrAdd(x, 32, i + n - 32);
      ShrPast(x, 32);
      ShrZero(i + n - 32);
    }
  }

  lemma ShrShifts(x: nat)
    ensures Shr(x, 3) == x / 8 && Shr(x, 10) == x / 0x400
  {
    assert Shr(x, 1) == x / 2 && Shr(x, 2) == x / 2 / 2 && Shr(x, 3) == x / 2 / 2 / 2;
    hide Shr;
    ShrAdd(x, 8, 2);
    ShrEight(x);
    ShrTwo(x / 0x100);
  }

  lemma ShrTwo(x: nat)
    ensures Shr(x, 2) == x / 4
  {
    assert Shr(x, 1) == x / 2;
  }

  // A big-endian word of a byte string.
  function WordAt(s: seq<u8>, i: nat): Word
    requires i + 4 <= |s|
  {
    var a: int, b: int, c: int, d: int := s[i], s[i + 1], s[i + 2], s[i + 3];
    a * 0x1000000 + b * 0x10000 + c * 0x100 + d
  }

  lemma WordAtIsBigEndian(s: seq<u8>, i: nat)
    requires i + 4 <= |s|
    ensures WordAt(s, i) == BeNat(s[i..i + 4]) && BigEndian(WordAt(s, i), 4) == s[i..i + 4]
  {
    hide BeNat, BigEndian;
    BeNatFour(s[i..i + 4]);
    BigEndianFour(s[i..i + 4]);
  }

  // The message schedule of a 64-byte block.
  function W(block: seq<u8>, t: nat): Word
    requires |block| == 64 && t < 64
  {
    if t < 16 then WordAt(block, 4 * t)
    else Wrap(SmallSigma1(W(block, t - 2)) + W(block, t - 7) + SmallSigma0(W(block, t - 15)) + W(block, t - 16))
  }

  datatype Work = Work(a: Word, b: Word, c: Word, d: Word, e: Word, f: Word, g: Word, h: Word)

  function Round(s: Work, k: Word, w: Word): Work {
    var t1 := Wrap(s.h + BigSigma1(s.e) + Ch(s.e, s.f, s.g) + k + w);
    var t2 := Wrap(BigSigma0(s.a) + Maj(s.a, s.b, s.c));
    Work(Wrap(t1 + t2), s.a, s.b, s.c, Wrap(s.d + t1), s.e, s.f, s.g)
  }

  function Rounds(s: Work, block: seq<u8>, t: nat): Work
    requires |block| == 64 && t <= 64
  {
    if t == 0 then s else Round(Rounds(s, block, t - 1), K[t - 1], W(block, t - 1))
  }

  function ToWork(state: seq<Word>): Work
    requires |state| == 8
  {
    Work(state[0], state[1], state[2], state[3], state[4], state[5], state[6], state[7])
  }

  function Compress(state: seq<Word>, block: seq<u8>): (next: seq<Word>)
    requires |state| == 8 && |block| == 64
    ensures |next| == 8
  {
    var s := Rounds(ToWork(state), block, 64);
    [Wrap(state[0] + s.a), Wrap(state[1] + s.b), Wrap(state[2] + s.c), Wrap(state[3] + s.d),
     Wrap(state[4] + s.e), Wrap(state[5] + s.f), Wrap(state[6] + s.g), Wrap(state[7] + s.h)]
  }

  // n blocks from the front of an input.
  function CompressAll(state: seq<Word>, input: seq<u8>, n: nat): (next: seq<Word>)
    requires |state| == 8 && 64 * n <= |input|
    ensures |next| == 8
    decreases n
  {
    if n == 0 then state else CompressAll(Compress(state, input[..64]), input[64..], n - 1)
  }

  // A one bit, the least number of zeros that leaves room for the length, and the length in bits. The length field is
  // 64 bits wide: for messages of less than 2^61 bytes the reduction does nothing.
  function Padding(length: nat): (p: seq<u8>)
    ensures (length + |p|) % 64 == 0
  {
    var a := length % 64;
    var z := if a <= 55 then 55 - a else 119 - a;
    DivModUnique(length + 9 + z, 64, if a <= 55 then length / 64 + 1 else length / 64 + 2, 0);
    [0x80] + Fill(0, z) + BigEndian(8 * length % TWO_64, 8)
  }

  function FinalState(msg: seq<u8>): (words: seq<Word>)
    ensures |words| == 8
  {
    var padded := msg + Padding(|msg|);
    CompressAll(INITIAL, padded, |padded| / 64)
  }

  function WordsToBytes(words: seq<Word>): (s: seq<u8>)
    ensures |s| == 4 * |words|
  {
    if |words| == 0 then [] else WordsToBytes(words[..|words| - 1]) + BigEndian(words[|words| - 1], 4)
  }

  // Words are written big-endian.
  lemma {:induction false} WordsToBytesAt(words: seq<Word>, k: nat)
    requires k < |words|
    ensures BeNat(WordsToBytes(words)[4 * k..4 * k + 4]) == words[k]
  {
    hide BeNat, BigEndian;
    var init := words[..|words| - 1];
    if k < |words| - 1 {
      WordsToBytesAt(init, k);
      assert WordsToBytes(words)[4 * k..4 * k + 4] == WordsToBytes(init)[4 * k..4 * k + 4];
    } else {
      SmallPower();
      BeNatBytes(words[k], 4);
      assert WordsToBytes(words)[4 * k..4 * k + 4] == BigEndian(words[k], 4);
    }
  }

  lemma SmallPower()
    ensures Pow256(4) == TWO_32
  {
  }

  // A byte 0x80, zeros, and the length in bits in the last eight bytes; no shorter padding makes whole blocks.
  lemma PaddingBytes(length: nat)
    ensures var p := Padding(length);
            9 <= |p| < 73 && p[0] == 0x80 && (forall i :: 1 <= i < |p| - 8 ==> p[i] == 0) &&
            BeNat(p[|p| - 8..]) == 8 * length % 0x1_0000_0000_0000_0000
  {
    hide BeNat, BigEndian;
    EightPower();
    BeNatBytes(8 * length % TWO_64, 8);
    assert Padding(length)[|Padding(length)| - 8..] == BigEndian(8 * length % TWO_64, 8);
  }

  lemma EightPower()
    ensures Pow256(8) == TWO_64
  {
    assert Pow256(4) == TWO_32;
    assert Pow256(6) == TWO_48;
  }

  function Digest(msg: seq<u8>): (hash: seq<u8>)
    ensures |hash| == 32
  {
    WordsToBytes(FinalState(msg))
  }

  // The code's forms of the logical functions.

  function CodeCh(x: Word, y: Word, z: Word): Word {
    XorWord(z, AndWord(x, XorWord(y, z)))
  }

  function CodeMaj(x: Word, y: Word, z: Word): Word {
    XorWord(AndWord(x, XorWord(y, z)), AndWord(y, z))
  }

  lemma CodeBits(x: Word, y: Word, z: Word, i: nat)
    requires i < 32
    ensures Bit(CodeCh(x, y, z), i) == Bit(Ch(x, y, z), i) && Bit(CodeMaj(x, y, z), i) == Bit(Maj(x, y, z), i)
  {
    hide AndWord, XorWord, Ch, Maj, Shr;
    ChBit(x, y, z, i);
    XorWordBit(y, z, i);
    AndWordBit(x, XorWord(y, z), i);
    XorWordBit(z, AndWord(x, XorWord(y, z)), i);
    AndWordBit(y, z, i);
    XorWordBit(AndWord(x, XorWord(y, z)), AndWord(y, z), i);
  }

  lemma CodeForms(x: Word, y: Word, z: Word)
    ensures CodeCh(x, y, z) == Ch(x, y, z) && CodeMaj(x, y, z) == Maj(x, y, z)
  {
    hide CodeCh, CodeMaj, Ch, Maj, Bit, Pow2;
    Pow32();
    forall i | 0 <= i < 32
      ensures Bit(CodeCh(x, y, z), i) == Bit(Ch(x, y, z), i) && Bit(CodeMaj(x, y, z), i) == Bit(Maj(x, y, z), i)
    {
      CodeBits(x, y, z, i);
    }
    SameBits(CodeCh(x, y, z), Ch(x, y, z), 32);
    SameBits(CodeMaj(x, y, z), Maj(x, y, z), 32);
  }

  lemma WrapInside(x: nat, y: nat)
    ensures Wrap(x + Wrap(y)) == Wrap(x + y)
  {
  }

  // One round as the code adds it up.
  lemma RoundForm(s: Work, k: Word, w: Word)
    ensures var x := Wrap(s.h + w + k + BigSigma1(s.e) + CodeCh(s.e, s.f, s.g));
            Round(s, k, w) ==
            Work(Wrap(x + BigSigma0(s.a) + CodeMaj(s.a, s.b, s.c)), s.a, s.b, s.c, Wrap(s.d + x), s.e, s.f, s.g)
  {
    hide BigSigma0, BigSigma1, Ch, Maj, CodeCh, CodeMaj, Wrap;
    CodeForms(s.e, s.f, s.g);
    CodeForms(s.a, s.b, s.c);
    var t1 := Wrap(s.h + BigSigma1(s.e) + Ch(s.e, s.f, s.g) + k + w);
    WrapInside(t1, BigSigma0(s.a) + Maj(s.a, s.b, s.c));
  }

  lemma RoundsStep(s: Work, block: seq<u8>, t: nat)
    requires |block| == 64 && t < 64
    ensures Rounds(s, block, 0) == s && Rounds(s, block, t + 1) == Round(Rounds(s, block, t), K[t], W(block, t))
  {
    hide Round, W;
  }

  lemma ScheduleStep(block: seq<u8>, t: nat)
    requires |block| == 64 && t < 64
    ensures t < 16 ==> W(block, t) == WordAt(block, 4 * t)
    ensures t >= 16 ==>
              W(block, t) == Wrap(W(block, t - 16) + W(block, t - 7) + SmallSigma1(W(block, t - 2)) +
                                  SmallSigma0(W(block, t - 15)))
  {
    hide SmallSigma0, SmallSigma1, WordAt, Wrap;
  }

  // The working variables in the sliding array: a is the newest entry.
  ghost function Window(r: seq<Word>, i: nat): Work
    requires i + 8 <= |r|
  {
    Work(r[i + 7], r[i + 6], r[i + 5], r[i + 4], r[i + 3], r[i + 2], r[i + 1], r[i])
  }

  // Lines 52-56 for round i.
  method OneRound(r: array<Word>, w: array<Word>, i: nat)
    requires r.Length == 72 && w.Length == 64 && i < 64 && r != w
    modifies r, w
    ensures Window(r[..], i + 1) == Round(Window(old(r[..]), i), K[i], old(w[i]))
    ensures forall k :: 0 <= k < 64 && k != i + 16 ==> w[k] == old(w[k])
    ensures i < 48 ==> w[i + 16] == old(Wrap(w[i] + w[i + 9] + SmallSigma1(w[i + 14]) + SmallSigma0(w[i + 1])))
  {
    hide Round, BigSigma0, BigSigma1, SmallSigma0, SmallSigma1, CodeCh, CodeMaj, Wrap;
    RoundForm(Window(r[..], i), K[i], w[i]);
    var x := Wrap(r[i] as int + w[i] + K[i] + BigSigma1(r[i + 3]) + CodeCh(r[i + 3], r[i + 2], r[i + 1]));
    r[i + 4] := Wrap(r[i + 4] as int + x);
    r[i + 8] := Wrap(x as int + BigSigma0(r[i + 7]) + CodeMaj(r[i + 7], r[i + 6], r[i + 5]));
    if i < 48 {
      w[i + 16] := Wrap(w[i] as int + w[i + 9] + SmallSigma1(w[i + 14]) + SmallSigma0(w[i + 1]));
    }
  }

  // One block: lines 48-60.
  method Block(state: array<Word>, input: seq<u8>)
    requires state.Length == 8 && |input| == 64
    modifies state
    ensures state[..] == Compress(old(state[..]), input)
  {
    hide W, Round, Rounds, WordAt, SmallSigma0, SmallSigma1, Wrap;
    var w := new Word[64];
    var r := new Word[72];
    for i := 0 to 8
      invariant forall k :: 0 <= k < i ==> r[7 - k] == state[k]
      invariant state[..] == old(state[..])
    {
      r[7 - i] := state[i];
    }
    for i := 0 to 16
      invariant forall k :: 0 <= k < 8 ==> r[7 - k] == state[k]
      invariant state[..] == old(state[..])
      invariant forall k :: 0 <= k < i ==> w[k] == W(input, k)
    {
      ScheduleStep(input, i);
      w[i] := WordAt(input, 4 * i);
    }
    ghost var s := ToWork(state[..]);
    RoundsStep(s, input, 0);
    assert r[7] == state[0] && r[6] == state[1] && r[5] == state[2] && r[4] == state[3];
    assert r[3] == state[4] && r[2] == state[5] && r[1] == state[6] && r[0] == state[7];
    RunRounds(r, w, input, s);
    AddState(state, r, Rounds(s, input, 64));
  }

  // Line 60.
  method AddState(state: array<Word>, r: array<Word>, ghost s: Work)
    requires state.Length == 8 && r.Length == 72 && state != r && Window(r[..], 64) == s
    modifies state
    ensures state[..] == old([Wrap(state[0] as int + s.a), Wrap(state[1] as int + s.b), Wrap(state[2] as int + s.c),
                              Wrap(state[3] as int + s.d),
                              Wrap(state[4] as int + s.e), Wrap(state[5] as int + s.f), Wrap(state[6] as int + s.g),
                                Wrap(state[7] as int + s.h)])
  {
    hide Wrap;
    for i := 0 to 8
      invariant forall k :: 0 <= k < i ==> state[k] == Wrap(old(state[k]) as int + r[71 - k])
      invariant forall k :: i <= k < 8 ==> state[k] == old(state[k])
    {
      state[i] := Wrap(state[i] as int + r[71 - i]);
    }
  }

  method RunRounds(r: array<Word>, w: array<Word>, input: seq<u8>, ghost s: Work)
    requires r.Length == 72 && w.Length == 64 && r != w && |input| == 64 && Window(r[..], 0) == s
    requires forall k :: 0 <= k < 16 ==> w[k] == W(input, k)
    modifies r, w
    ensures Window(r[..], 64) == Rounds(s, input, 64)
  {
    hide W, Round, Rounds, SmallSigma0, SmallSigma1, Wrap;
    RoundsStep(s, input, 0);
    for i := 0 to 64
      invariant Window(r[..], i) == Rounds(s, input, i)
      invariant forall k :: 0 <= k < 64 && k < i + 16 ==> w[k] == W(input, k)
    {
      RoundsStep(s, input, i);
      if i < 48 {
        ScheduleStep(input, i + 16);
      }
      OneRound(r, w, i);
    }
  }

  lemma CompressAllStep(state: seq<Word>, input: seq<u8>, n: nat)
    requires |state| == 8 && 64 * n <= |input|
    ensures CompressAll(state, input, 0) == state
    ensures n > 0 ==> CompressAll(state, input, n) == CompressAll(Compress(state, input[..64]), input[64..], n - 1)
  {
    hide Compress;
  }

  lemma {:induction false} CompressAllConcat(state: seq<Word>, x: seq<u8>, m: nat, y: seq<u8>, n: nat)
    requires |state| == 8 && |x| == 64 * m && 64 * n <= |y|
    ensures CompressAll(state, x + y, m + n) == CompressAll(CompressAll(state, x, m), y, n)
    decreases m
  {
    hide Compress, CompressAll;
    CompressAllStep(state, x, m);
    if m == 0 {
      assert x + y == y;
    } else {
      CompressAllStep(state, x + y, m + n);
      CompressAllConcat(Compress(state, x[..64]), x[64..], m - 1, y, n);
      assert (x + y)[..64] == x[..64];
      assert (x + y)[64..] == x[64..] + y;
    }
  }

  // Bytes after the n blocks do not matter.
  lemma {:induction false} CompressAllPrefix(state: seq<Word>, x: seq<u8>, n: nat)
    requires |state| == 8 && 64 * n <= |x|
    ensures CompressAll(state, x[..64 * n], n) == CompressAll(state, x, n)
    decreases n
  {
    hide Compress, CompressAll;
    CompressAllStep(state, x, n);
    CompressAllStep(state, x[..64 * n], n);
    if n > 0 {
      CompressAllPrefix(Compress(state, x[..64]), x[64..], n - 1);
      assert x[..64 * n][..64] == x[..64];
      assert x[..64 * n][64..] == x[64..][..64 * (n - 1)];
    } else {
      CompressAllStep(state, x, 0);
      CompressAllStep(state, x[..0], 0);
    }
  }

  method Blocks(state: array<Word>, input: seq<u8>, numBlocks: nat)
    requires state.Length == 8 && numBlocks > 0 && 64 * numBlocks <= |input|
    modifies state
    ensures state[..] == CompressAll(old(state[..]), input, numBlocks)
  {
    hide Compress, CompressAll;
    var rest, left := input, numBlocks;
    while true
      invariant 0 < left && 64 * left <= |rest|
      invariant CompressAll(state[..], rest, left) == CompressAll(old(state[..]), input, numBlocks)
      decreases left
    {
      CompressAllStep(state[..], rest, left);
      Block(state, rest[..64]);
      rest := rest[64..];
      left := left - 1;
      CompressAllStep(state[..], rest, left);
      if left == 0 {
        break;
      }
    }
  }

  // The padded message as its whole blocks and one or two more blocks.
  lemma PaddedBlocks(done: seq<u8>, tail: seq<u8>)
    requires |done| % 64 == 0 && |tail| < 64
    ensures var msg := done + tail;
            var length := BigEndian(8 * |msg| % TWO_64, 8);
            var last := if |tail| <= 55 then tail + [0x80] + Fill(0, 55 - |tail|) + length
                        else tail + [0x80] + Fill(0, 63 - |tail|) + (Fill(0, 56) + length);
            msg + Padding(|msg|) == done + last && |last| % 64 == 0
  {
    hide BigEndian;
    var msg := done + tail;
    assert |msg| % 64 == |tail|;
    if |tail| > 55 {
      assert Fill(0, 119 - |tail|) == Fill(0, 63 - |tail|) + Fill(0, 56);
    }
  }

  lemma FinalBlocks(done: seq<u8>, tail: seq<u8>, last: seq<u8>)
    requires |done| % 64 == 0 && |tail| < 64 && |last| % 64 == 0
    requires done + tail + Padding(|done + tail|) == done + last
    ensures FinalState(done + tail) == CompressAll(CompressAll(INITIAL, done, |done| / 64), last, |last| / 64)
  {
    hide CompressAll, Padding;
    var m, n := |done| / 64, |last| / 64;
    CompressAllConcat(INITIAL, done, m, last, n);
    DivModUnique(|done + last|, 64, m + n, 0);
  }

  lemma NumBits(blocks: nat, counter: u64, tail: nat)
    requires counter == blocks % TWO_64
    ensures (counter as int * 64 % TWO_64 + tail) % TWO_64 * 8 % TWO_64
            == 8 * (64 * blocks + tail) % TWO_64
  {
    var t := TWO_64;
    var x1: int := counter as int * 64;
    var x2 := x1 % t + tail;
    var a, b, q := x1 / t, x2 / t, blocks / t;
    assert x2 % t * 8 == 8 * (64 * blocks + tail) + (-8 * a - 8 * b - 512 * q) * t;
    ModAddMultiple(8 * (64 * blocks + tail), -8 * a - 8 * b - 512 * q, t);
  }

  class Hasher {
    const state: array<Word>
    var blockCounter: u64
    const buffer: array<u8>
    var bufferSize: nat

    // The whole blocks absorbed so far.
    ghost var done: seq<u8>

    ghost predicate Valid()
      reads this, state, buffer
    {
      buffer.Length == 64 && state as object != buffer && bufferSize < 64 && Absorbed()
    }

    // The chaining value and the block counter, which wraps at 2^64.
    ghost predicate Absorbed()
      reads this`done, this`blockCounter, state
    {
      state.Length == 8 && |done| % 64 == 0 && blockCounter == |done| / 64 % TWO_64 &&
      state[..] == CompressAll(INITIAL, done, |done| / 64)
    }

    // Everything passed to `Update` so far.
    ghost function Message(): seq<u8>
      requires buffer.Length == 64 && bufferSize <= 64
      reads this`done, this`bufferSize, buffer
    {
      done + buffer[..bufferSize]
    }

    constructor ()
      ensures Valid() && Message() == [] && fresh(state) && fresh(buffer)
    {
      state := new Word[8](i requires 0 <= i < 8 => INITIAL[i]);
      blockCounter := 0;
      bufferSize := 0;
      buffer := new u8[64];
      done := [];
      new;
      CompressAllStep(INITIAL, done, 0);
      assert state[..] == INITIAL;
    }

    method AbsorbBlocks(input: seq<u8>, numBlocks: nat)
      requires 64 * numBlocks <= |input| && numBlocks > 0 && Absorbed()
      modifies this`done, this`blockCounter, state
      ensures Absorbed() && done == old(done) + input[..64 * numBlocks]
    {
      hide CompressAll;
      ghost var n := |done| / 64;
      CompressAllPrefix(state[..], input, numBlocks);
      CompressAllConcat(INITIAL, done, n, input[..64 * numBlocks], numBlocks);
      Blocks(state, input, numBlocks);
      blockCounter := (blockCounter as int + numBlocks) % TWO_64;
      done := done + input[..64 * numBlocks];
      assert |done| / 64 == n + numBlocks;
    }

    method Update(input: seq<u8>)
      requires Valid()
      modifies this`done, this`blockCounter, this`bufferSize, state, buffer
      ensures Valid() && Message() == old(Message()) + input
    {
      hide Absorbed;
      ghost var before, held := done, buffer[..bufferSize];
      if bufferSize == 0 {
        Regroup(before, held, input, 0);
        TakeRest(input);
        return;
      }
      var numToRead := TopUp(buffer, bufferSize, input);
      bufferSize := bufferSize + numToRead;
      Regroup(before, held, input, numToRead);
      if bufferSize < 64 {
        return;
      }
      ghost var full := buffer[..bufferSize];
      assert buffer[..][..64 * 1] == full;
      AbsorbBlocks(buffer[..], 1);
      TakeRest(input[numToRead..]);
    }

    // Lines 91-101: whole blocks straight from the input, the remainder into the buffer.
    method TakeRest(rest: seq<u8>)
      requires buffer.Length == 64 && state as object != buffer && Absorbed()
      modifies this`done, this`blockCounter, this`bufferSize, state, buffer
      ensures Absorbed() && bufferSize < 64 && Message() == old(done) + rest
    {
      hide Absorbed;
      var numBlocks := |rest| / 64;
      if numBlocks > 0 {
        AbsorbBlocks(rest, numBlocks);
      }
      bufferSize := |rest| % 64;
      ghost var from := 64 * numBlocks;
      assert rest == rest[..from] + rest[from..] && |rest| - bufferSize == from;
      KeepTail(buffer, rest, bufferSize);
      WholeThenTail(old(done), rest[..from], rest[from..]);
    }

    method Finish() returns (hash: array<u8>)
      requires Valid()
      modifies this`bufferSize, state, buffer
      ensures fresh(hash) && hash[..] == Digest(old(Message()))
    {
      hide CompressAll, Padding, BigEndian, FinalState, WordsToBytes, Fill;
      ghost var tail, n := buffer[..bufferSize], |done| / 64;
      NumBits(n, blockCounter, bufferSize);
      PaddedBlocks(done, tail);
      var numBits: u64 := (blockCounter as int * 64 % TWO_64 + bufferSize) % TWO_64 * 8 % TWO_64;
      ghost var length := BigEndian(numBits, 8);

      buffer[bufferSize] := 0x80;
      bufferSize := bufferSize + 1;
      assert buffer[..bufferSize] == tail + [0x80];
      if bufferSize > 56 {
        Memset(buffer, bufferSize, 0, 64 - bufferSize);
        ghost var first := tail + [0x80] + Fill(0, 64 - bufferSize);
        assert buffer[..] == first;
        FinalBlocks(done, tail, first + (Fill(0, 56) + length));
        CompressAllConcat(state[..], first, 1, Fill(0, 56) + length, 1);
        Blocks(state, buffer[..], 1);
        bufferSize := 0;
        LastBlock(numBits, []);
        assert [] + Fill(0, 56 - 0) + length == Fill(0, 56) + length;
      } else {
        FinalBlocks(done, tail, tail + [0x80] + Fill(0, 56 - bufferSize) + length);
        LastBlock(numBits, tail + [0x80]);
      }
      hash := Output();
    }

    // Lines 113-115.
    method LastBlock(numBits: u64, ghost head: seq<u8>)
      requires state.Length == 8 && buffer.Length == 64 && state as object != buffer && bufferSize == |head| <= 56 &&
               buffer[..bufferSize] == head
      modifies state, buffer
      ensures state[..] == CompressAll(old(state[..]), head + Fill(0, 56 - |head|) + BigEndian(numBits, 8), 1)
    {
      hide CompressAll, BigEndian, Fill;
      Memset(buffer, bufferSize, 0, 56 - bufferSize);
      assert buffer[..56] == head + Fill(0, 56 - |head|);
      StoreBigEndian(buffer, 56, numBits, 8);
      assert buffer[..] == buffer[..56] + buffer[56..64];
      Blocks(state, buffer[..], 1);
    }

    // Line 116.
    method Output() returns (hash: array<u8>)
      requires state.Length == 8
      ensures fresh(hash) && hash[..] == WordsToBytes(state[..])
    {
      hide BigEndian;
      hash := new u8[32];
      for i := 0 to 8
        invariant hash[..4 * i] == WordsToBytes(state[..i])
      {
        StoreBigEndian(hash, 4 * i, state[i], 4);
        assert state[..i + 1][..i] == state[..i];
        assert hash[..4 * (i + 1)] == hash[..4 * i] + hash[4 * i..4 * i + 4];
      }
      assert state[..8] == state[..] && hash[..32] == hash[..];
    }
  }

  // A whole computation: init, any number of updates, finish. The hash depends on the concatenation only.
  method Hash(chunks: seq<seq<u8>>) returns (hash: array<u8>)
    ensures fresh(hash) && hash[..] == Digest(Concat(chunks))
  {
    hide Digest, CompressAll;
    var h := new Hasher();
    assert chunks[0..] == chunks && [] + Concat(chunks) == Concat(chunks);
    for k := 0 to |chunks|
      invariant h.Valid() && fresh(h) && fresh(h.state) && fresh(h.buffer)
      invariant h.Message() + Concat(chunks[k..]) == Concat(chunks)
    {
      ghost var before := h.Message();
      h.Update(chunks[k]);
      assert chunks[k..][1..] == chunks[k + 1..];
      assert (before + chunks[k]) + Concat(chunks[k + 1..]) == before + (chunks[k] + Concat(chunks[k + 1..]));
    }
    assert h.Message() + [] == h.Message();
    hash := h.Finish();
  }
}
