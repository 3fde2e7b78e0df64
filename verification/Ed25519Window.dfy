/** Signed-digit recodings of Ed25519 scalars: `_ed25519_modm_window4` and `ed25519_modm_window` of
    hc/core/hc/crypto/ed25519.c. Both first write out plain digits and then rewrite the digit array in place. */
module Ed25519Window {
  import opened Words
  import S = Ed25519Scalar

  type i8 = x: int | -0x80 <= x < 0x80

  // The number that digits in base 2^w stand for, least significant first.
  function Digits(w: nat, d: seq<i8>): int {
    if |d| == 0 then 0 else d[0] + Pow2(w) * Digits(w, d[1..])
  }

  ghost predicate AreBits(d: seq<i8>) {
    forall k :: 0 <= k < |d| ==> d[k] == 0 || d[k] == 1
  }

  lemma {:induction false} DigitsConcat(w: nat, c: seq<i8>, d: seq<i8>)
    ensures Digits(w, c + d) == Digits(w, c) + Pow2(w * |c|) * Digits(w, d)
  {
    if |c| == 0 {
      assert c + d == d;
    } else {
      DigitsConcat(w, c[1..], d);
      assert (c + d)[1..] == c[1..] + d;
      var n := w * (|c| - 1);
      assert w * |c| == w + n;
      Pow2Add(w, n);
      Distribute(Pow2(w), Digits(w, c[1..]), Pow2(n), Digits(w, d));
    }
  }

  lemma Distribute(a: int, x: int, b: int, y: int)
    ensures a * (x + b * y) == a * x + (a * b) * y
  {
    assert a * (b * y) == (a * b) * y;
  }

  lemma DigitsOne(w: nat, x: i8)
    ensures Digits(w, [x]) == x
  {
  }

  lemma DigitsAppend(w: nat, d: seq<i8>, x: i8)
    ensures Digits(w, d + [x]) == Digits(w, d) + Pow2(w * |d|) * x
  {
    DigitsConcat(w, d, [x]);
    DigitsOne(w, x);
  }

  lemma DigitsUpdate(w: nat, d: seq<i8>, k: nat, x: i8)
    requires k < |d|
    ensures Digits(w, d[k := x]) == Digits(w, d) + Pow2(w * k) * (x - d[k])
  {
    hide Digits, Pow2;
    var lo, hi := d[..k], d[k + 1..];
    assert d == lo + ([d[k]] + hi) && d[k := x] == lo + ([x] + hi);
    DigitsConcat(w, lo, [d[k]] + hi);
    DigitsConcat(w, lo, [x] + hi);
    DigitsConcat(w, [d[k]], hi);
    DigitsConcat(w, [x], hi);
    DigitsOne(w, x);
    DigitsOne(w, d[k]);
    var p, q := Pow2(w * k), Pow2(w) * Digits(w, hi);
    assert w * 1 == w;
    ScaleDifference(p, x, d[k], q);
  }

  lemma ScaleDifference(p: int, x: int, y: int, q: int)
    ensures p * (x + q) == p * (y + q) + p * (x - y)
  {
  }

  lemma BitAt(d: seq<i8>, k: nat)
    requires AreBits(d) && k < |d|
    ensures d[k] == 0 || d[k] == 1
  {
  }

  lemma {:induction false} BitsRange(d: seq<i8>)
    requires AreBits(d)
    ensures 0 <= Digits(1, d) < Pow2(|d|)
  {
    if |d| > 0 {
      BitsRange(d[1..]);
      assert Pow2(|d|) == 2 * Pow2(|d| - 1) && Pow2(1) == 2;
    }
  }

  // A scalar below 2^256 in limbs.
  ghost predicate IsScalar(s: seq<u64>) {
    |s| == 5 && (forall i :: 0 <= i < 4 ==> s[i] < TWO_56) && s[4] < TWO_32
  }

  ghost function Value(s: seq<u64>): int
    requires |s| == 5
  {
    S.S5(s[0], s[1], s[2], s[3], s[4])
  }

  // The limbs from index i on.
  ghost function Rest(s: seq<u64>, i: nat): int
    requires |s| == 5 && i <= 5
    decreases 5 - i
  {
    if i == 5 then 0 else s[i] + TWO_56 * Rest(s, i + 1)
  }

  lemma RestIsValue(s: seq<u64>)
    requires |s| == 5
    ensures Rest(s, 0) == Value(s) && Rest(s, 5) == 0
  {
    assert Rest(s, 4) == s[4];
    assert Rest(s, 3) == s[3] + TWO_56 * Rest(s, 4);
    assert Rest(s, 2) == s[2] + TWO_56 * Rest(s, 3);
    assert Rest(s, 1) == s[1] + TWO_56 * Rest(s, 2);
  }

  lemma LimbBits(w: nat)
    requires w == 1 || w == 4
    ensures Pow2(56) == TWO_56 && Pow2(32) == TWO_32 && Pow2(w) == if w == 1 then 2 else 16
  {
    assert Pow2(8) == 0x100;
    assert Pow2(1) == 2 && Pow2(4) == 16;
    hide *;
    Pow2Sum(8, 0x100, 8, 0x100, 16);
    Pow2Sum(16, 0x1_0000, 16, 0x1_0000, 32);
    Pow2Sum(32, TWO_32, 16, 0x1_0000, 48);
    Pow2Sum(48, TWO_48, 8, 0x100, 56);
  }

  // Digits d are written; v, of `left` bits, and the limbs above it are still to come.
  ghost predicate Partial(w: nat, d: seq<i8>, v: int, left: nat, rest: int, total: int) {
    0 <= v < Pow2(left) && total == Digits(w, d) + Pow2(w * |d|) * (v + Pow2(left) * rest)
  }

  // One step of the expansion: the low digit of v moves from the unread part to the written digits.
  lemma MoveDigit(w: nat, d: seq<i8>, v: nat, left: nat, rest: int, total: int)
    requires 0 < w <= 4 && left >= w && Partial(w, d, v, left, rest, total)
    ensures 0 <= v % Pow2(w) < Pow2(w) <= 16 && v / Pow2(w) >= 0
    ensures Partial(w, d + [v % Pow2(w)], v / Pow2(w), left - w, rest, total)
  {
    hide Digits, Pow2;
    SmallPow(w);
    var b, n := Pow2(w), w * |d|;
    DigitsAppend(w, d, v % b);
    Pow2Add(n, w);
    Pow2Add(w, left - w);
    assert w * |d + [v % b]| == n + w;
    MoveValue(b, Digits(w, d), Pow2(n), v, Pow2(left - w), rest, Pow2(left), Pow2(n + w));
  }

  lemma SmallPow(w: nat)
    requires 0 < w <= 4
    ensures 2 <= Pow2(w) <= 16
  {
    assert Pow2(1) == 2 && Pow2(2) == 4 && Pow2(3) == 8 && Pow2(4) == 16;
  }

  lemma MoveValue(b: nat, d: int, p: int, v: nat, t: nat, rest: int, bt: nat, pb: int)
    requires b > 0 && v < bt && bt == b * t && pb == p * b
    ensures 0 <= v % b < b && 0 <= v / b < t
    ensures d + p * (v + bt * rest) == d + p * (v % b) + pb * (v / b + t * rest)
  {
    var low, high := v % b, v / b;
    assert v == low + b * high;
    Distribute(b, high, t, rest);
    Distribute(p, low, b, high + t * rest);
    MulSign(b, t - high);
    assert b * (t - high) == b * t - b * high;
  }

  lemma MulSign(b: nat, x: int)
    ensures x <= 0 ==> b * x <= 0
  {
  }

  // The inner loop of the expansion: the digits of one limb.
  method ExpandLimb(r: array<i8>, start: nat, limb: nat, count: nat, w: nat, ghost bits: nat, ghost rest: int,
                    ghost total: int)
    requires 0 < w <= 4 && start + count <= r.Length && bits == count * w
    requires Partial(w, r[..start], limb, bits, rest, total)
    requires forall k :: 0 <= k < start ==> 0 <= r[k] < Pow2(w)
    modifies r
    ensures Partial(w, r[..start + count], 0, 0, rest, total)
    ensures forall k :: 0 <= k < start + count ==> 0 <= r[k] < Pow2(w)
  {
    hide Digits, Pow2, Partial;
    var v := limb;
    ghost var left := bits;
    for j := 0 to count
      invariant v >= 0 && left == (count - j) * w && Partial(w, r[..start + j], v, left, rest, total)
      invariant forall k :: 0 <= k < start + j ==> 0 <= r[k] < Pow2(w)
    {
      EnoughLeft(count - j, w);
      MoveDigit(w, r[..start + j], v, left, rest, total);
      ghost var done := r[..start + j];
      r[start + j] := v % Pow2(w);
      assert r[..start + (j + 1)] == done + [v % Pow2(w)];
      v := v / Pow2(w);
      left := left - w;
    }
    NothingLeft(w, r[..start + count], v, rest, total);
  }

  lemma EnoughLeft(n: nat, w: nat)
    requires n > 0
    ensures n * w >= w && (n - 1) * w == n * w - w
  {
  }

  lemma NothingLeft(w: nat, d: seq<i8>, v: int, rest: int, total: int)
    requires Partial(w, d, v, 0, rest, total)
    ensures v == 0
  {
  }

  // The next limb becomes the part that is being read.
  lemma TakeLimb(w: nat, d: seq<i8>, s: seq<u64>, i: nat, bits: nat, total: int)
    requires i < 5 && IsScalar(s) && bits == (if i == 4 then 32 else 56)
    requires Partial(w, d, 0, 0, Rest(s, i), total)
    ensures Partial(w, d, s[i], bits, Rest(s, i + 1), total)
  {
    assert Pow2(0) == 1;
    LimbBits(1);
    hide Pow2;
    assert Rest(s, i) == s[i] + Pow2(bits) * Rest(s, i + 1);
  }

  lemma LastLimb(w: nat, d: seq<i8>, total: int)
    ensures Partial(w, d, 0, 0, 0, total) <==> total == Digits(w, d)
    ensures d == [] ==> Partial(w, d, 0, 0, total, total)
  {
    assert Pow2(0) == 1;
    assert Pow2(0) * 0 == 0;
    if d == [] {
      assert Pow2(w * |d|) == 1;
    }
  }

  // Plain digits of width w: lines 217-224 (w = 4) and 242-249 (w = 1).
  method Expand(r: array<i8>, s: seq<u64>, w: nat)
    requires (w == 1 && r.Length == 256) || (w == 4 && r.Length == 64)
    requires IsScalar(s)
    modifies r
    ensures Digits(w, r[..]) == Value(s)
    ensures forall k :: 0 <= k < r.Length ==> 0 <= r[k] < Pow2(w)
  {
    hide Digits, Pow2, Value, Partial, Rest;
    RestIsValue(s);
    LastLimb(w, r[..0], Value(s));
    var pos := 0;
    for i := 0 to 5
      invariant pos == if w == 1 then (if i == 5 then 256 else 56 * i) else (if i == 5 then 64 else 14 * i)
      invariant Partial(w, r[..pos], 0, 0, Rest(s, i), Value(s))
      invariant forall k :: 0 <= k < pos ==> 0 <= r[k] < Pow2(w)
    {
      var bits := if i == 4 then 32 else 56;
      var jEnd := if w == 1 then bits else bits / 4;
      assert bits == jEnd * w by {
        if w == 4 {
          assert bits == jEnd * 4;
        }
      }
      TakeLimb(w, r[..pos], s, i, bits, Value(s));
      ExpandLimb(r, pos, s[i], jEnd, w, bits, Rest(s, i + 1), Value(s));
      pos := pos + jEnd;
    }
    LastLimb(w, r[..], Value(s));
    assert r[..pos] == r[..];
  }

  // Moving a carry of 16 from digit i to digit i + 1 keeps the number.
  lemma SignStep(d: seq<i8>, i: nat, carry: int, z: i8, up: int, next: int)
    requires i + 1 < |d| && -0x80 <= d[i + 1] + up < 0x80
    requires z == d[i] + carry - 16 * up - 16 * next
    ensures Digits(4, d[i := z][i + 1 := d[i + 1] + up]) + Pow2(4 * (i + 1)) * next ==
            Digits(4, d) + Pow2(4 * i) * carry
  {
    assert Pow2(4) == 16;
    hide *;
    DigitsUpdate(4, d, i, z);
    DigitsUpdate(4, d[i := z], i + 1, d[i + 1] + up);
    Pow2Add(4 * i, 4);
    CarryValue(Pow2(4 * i), d[i], carry, z, up, next);
  }

  lemma CarryValue(p: int, x: int, carry: int, z: int, up: int, next: int)
    requires z == x + carry - 16 * up - 16 * next
    ensures p * (z - x) + (p * 16) * up + (p * 16) * next == p * carry
  {
  }

  lemma {:induction false} SmallDigits(d: seq<i8>)
    requires forall k :: 0 <= k < |d| ==> -8 <= d[k] < 8
    ensures 0 - Pow2(4 * |d|) < Digits(4, d) < Pow2(4 * |d|)
  {
    if |d| > 0 {
      SmallDigits(d[1..]);
      Pow2Add(4, 4 * (|d| - 1));
      assert Pow2(4) == 16;
    }
  }

  // The top digit of a number below 2^255 with small signed digits below it.
  lemma TopDigit(d: seq<i8>)
    requires |d| == 64 && (forall k :: 0 <= k < 63 ==> -8 <= d[k] < 8) && Digits(4, d) < TWO_255
    ensures d[63] <= 8
  {
    var lo := d[..63];
    assert d == lo + [d[63]];
    DigitsAppend(4, lo, d[63]);
    SmallDigits(lo);
    Pow252();
    hide *;
  }

  lemma Pow252()
    ensures Pow2(252) == TWO_252
  {
    assert Pow2(7) == 0x80;
    hide *;
    Pow2Sum(7, 0x80, 7, 0x80, 14);
    Pow2Sum(14, 0x4000, 14, 0x4000, 28);
    Pow2Sum(28, 0x10000000, 28, 0x10000000, 56);
    Pow2Sum(56, TWO_56, 7, 0x80, 63);
    Pow2Sum(63, TWO_63, 63, TWO_63, 126);
    Pow2Sum(126, TWO_126, 126, TWO_126, 252);
  }

  // Lines 229-233: digit i becomes signed, its overflow goes to digit i + 1 and to the carry.
  method SignDigit(r: array<i8>, i: nat, carry: int) returns (next: int)
    requires i + 1 < r.Length && 0 <= carry <= 1 && 0 <= r[i] <= 16 && 0 <= r[i + 1] < 16
    modifies r
    ensures 0 <= next <= 1 && -8 <= r[i] < 8 && 0 <= r[i + 1] <= 16
    ensures forall k :: 0 <= k < r.Length && k != i && k != i + 1 ==> r[k] == old(r[k])
    ensures Digits(4, r[..]) + Pow2(4 * (i + 1)) * next == Digits(4, old(r[..])) + Pow2(4 * i) * carry
  {
    hide Digits, Pow2;
    ghost var d := r[..];
    r[i] := r[i] + carry;
    var up := r[i] / 16;
    r[i + 1] := r[i + 1] + up;
    r[i] := r[i] % 16;
    next := r[i] / 8;
    r[i] := r[i] - next * 16;
    SignStep(d, i, carry, r[i], up, next);
    assert r[..] == d[i := r[i]][i + 1 := d[i + 1] + up];
  }

  method Window4(r: array<i8>, s: seq<u64>)
    requires r.Length == 64 && IsScalar(s)
    modifies r
    ensures Digits(4, r[..]) == Value(s)
    ensures forall k :: 0 <= k < 63 ==> -8 <= r[k] < 8
    ensures Value(s) < TWO_255 ==> 0 <= r[63] <= 8
  {
    hide Digits, Pow2, Value;
    Expand(r, s, 4);
    LimbBits(4);
    ghost var total := Digits(4, r[..]);

    var carry := 0;
    for i := 0 to 63
      invariant 0 <= carry <= 1
      invariant Digits(4, r[..]) + Pow2(4 * i) * carry == total
      invariant forall k :: 0 <= k < i ==> -8 <= r[k] < 8
      invariant 0 <= r[i] <= 16
      invariant forall k :: i < k < 64 ==> 0 <= r[k] < 16
    {
      carry := SignDigit(r, i, carry);
    }
    ghost var d := r[..];
    DigitsUpdate(4, d, 63, d[63] + carry);
    r[63] := r[63] + carry;
    assert r[..] == d[63 := d[63] + carry];
    if total < TWO_255 {
      TopDigit(r[..]);
    }
  }

  // The sliding window.

  // Add one to the number given by the bits from `start` on: lines 267-273. A carry off the end is lost.
  method Increment(r: array<i8>, start: nat)
    requires start <= r.Length && AreBits(r[start..])
    modifies r
    ensures AreBits(r[start..]) && r[..start] == old(r[..start])
    ensures Digits(1, r[start..]) == (Digits(1, old(r[start..])) + 1) % Pow2(r.Length - start)
    ensures start < r.Length && old(r[start]) == 1 ==> r[start] == 0
  {
    hide Digits, Pow2, AreBits;
    PowTwice(0);
    ghost var old' := Digits(1, r[start..]);
    BitsRange(r[start..]);
    var k := start;
    while k < r.Length
      invariant start <= k <= r.Length && AreBits(r[start..]) && r[..start] == old(r[..start])
      invariant Digits(1, r[start..]) == old' + 1 - Pow2(k - start)
      invariant r[k..] == old(r[k..])
      invariant k > start && old(r[start]) == 1 ==> r[start] == 0
    {
      var bit := r[k];
      BitAt(r[start..], k - start);
      FlipBit(r, start, k, 1 - bit);
      if bit == 0 {
        BitsRange(r[start..]);
        WrapOnce(old' + 1, Pow2(r.Length - start), old' + 1);
        return;
      }
      PowTwice(k - start);
      k := k + 1;
    }
    BitsRange(r[start..]);
    WrapOnce(old' + 1, Pow2(r.Length - start), Digits(1, r[start..]));
  }

  lemma WrapOnce(x: int, d: int, y: int)
    requires 0 <= y < d && (x == y || x == y + d)
    ensures x % d == y
  {
    if x == y {
      DivModUnique(x, d, 0, y);
    } else {
      DivModUnique(x, d, 1, y);
    }
  }

  method FlipBit(r: array<i8>, start: nat, k: nat, bit: i8)
    requires start <= k < r.Length && AreBits(r[start..]) && 0 <= bit <= 1 && r[k] == 1 - bit
    modifies r
    ensures r[..k] == old(r[..k]) && r[k] == bit && r[k + 1..] == old(r[k + 1..]) && AreBits(r[start..])
    ensures Digits(1, r[start..]) == Digits(1, old(r[start..])) + if bit == 1 then Pow2(k - start)
            else 0 - Pow2(k - start)
  {
    hide Digits, Pow2;
    ghost var d := r[start..];
    DigitsUpdate(1, d, k - start, bit);
    assert 1 * (k - start) == k - start;
    r[k] := bit;
    assert r[start..] == d[k - start := bit];
    UnitSteps(Pow2(k - start));
  }

  lemma PowTwice(n: nat)
    ensures Pow2(n + 1) == 2 * Pow2(n) && Pow2(0) == 1
  {
  }

  lemma {:induction false} ZeroPrefix(d: seq<i8>, n: nat)
    requires n <= |d| && forall k :: 0 <= k < n ==> d[k] == 0
    ensures Digits(1, d) == Pow2(n) * Digits(1, d[n..])
  {
    if n == 0 {
      assert d[0..] == d;
    } else {
      ZeroPrefix(d[1..], n - 1);
      assert d[1..][n - 1..] == d[n..];
      assert Pow2(1) == 2;
      DoubleProduct(Pow2(n - 1), Digits(1, d[n..]));
    }
  }

  lemma DoubleProduct(p: int, x: int)
    ensures 2 * (p * x) == (2 * p) * x
  {
  }

  // Digits 1 up to b - 1 are zero and those from b on are bits.
  ghost predicate Cleared(d: seq<i8>, b: nat) {
    1 <= b <= |d| && (forall k :: 1 <= k < b ==> d[k] == 0) && (forall k :: 1 <= k < |d| ==> d[k] == 0 || d[k] == 1)
  }

  // The window digit d[0] has absorbed the bits below b of the number u. For a small number the rest stays below 2^255.
  ghost predicate Window(d: seq<i8>, b: nat, m: int, u: int, small: bool) {
    Cleared(d, b) && Digits(1, d) == u && -m <= d[0] <= m && d[0] % 2 == 1 && 0 - Pow2(b) < d[0] < Pow2(b) &&
    (small ==> u - d[0] <= Pow2(|d| - 1))
  }

  lemma HeadAndTail(d: seq<i8>, b: nat)
    requires 1 <= b <= |d| && forall k :: 1 <= k < b ==> d[k] == 0
    ensures Digits(1, d) == d[0] + 2 * Digits(1, d[1..])
    ensures 2 * Digits(1, d[1..]) == Pow2(b) * Digits(1, d[b..])
  {
    assert Pow2(1) == 2;
    ZeroPrefix(d[1..], b - 1);
    assert d[1..][b - 1..] == d[b..];
    DoubleProduct(Pow2(b - 1), Digits(1, d[b..]));
  }

  // `bit << b`
  function Shl(bit: int, b: nat): int {
    bit * Pow2(b)
  }

  lemma ShlBit(b: nat)
    ensures Shl(0, b) == 0 && Shl(1, b) == Pow2(b) && Pow2(b + 1) == 2 * Pow2(b)
  {
  }

  // Absorbing bit b into the window digit.
  lemma Absorb(d: seq<i8>, b: nat, m: int, u: int, small: bool, x: i8)
    requires b < |d| && Window(d, b, m, u, small) && x == d[0] + Shl(d[b], b) && x <= m
    ensures Window(d[0 := x][b := 0], b + 1, m, u, small)
  {
    hide Digits, Pow2, Shl;
    ShlBit(b);
    ShlBit(b - 1);
    if d[b] == 0 {
      assert d[0 := x][b := 0] == d;
    } else {
      assert d[b] == 1;
      DigitsUpdate(1, d, 0, x);
      DigitsUpdate(1, d[0 := x], b, 0);
      PowTwice(0);
      UnitSteps(Pow2(b));
    }
  }

  lemma UnitSteps(p: int)
    ensures p * (0 - 1) == -p && p * (1 - 0) == p
  {
  }

  // Borrowing bit b: possible only from a positive digit, so the bits above stay below 2^255.
  lemma BorrowRoom(d: seq<i8>, b: nat, m: int, u: int)
    requires b < |d| && Window(d, b, m, u, true) && u <= Pow2(|d| - 1)
    requires d[0] + Pow2(b) > m && d[0] - Pow2(b) >= -m
    ensures Pow2(b) * (Digits(1, d[b..]) + 1) <= Pow2(|d| - 1)
    ensures 0 <= Digits(1, d[b..]) + 1 < Pow2(|d| - b)
  {
    hide Digits, Pow2;
    HeadAndTail(d, b);
    Pow2Add(b, |d| - 1 - b);
    PowTwice(|d| - 1 - b);
    BitsRange(d[b..]);
    RoomAbove(Pow2(b), Digits(1, d[b..]), Pow2(|d| - 1 - b));
  }

  lemma RoomAbove(p: nat, w: int, z: int)
    requires p > 0 && p * w < p * z
    ensures w < z && p * (w + 1) <= p * z
  {
    MulAtMost(p, z, w);
    MulAtMost(p, w + 1, z);
  }

  lemma MulAtMost(p: nat, x: int, y: int)
    ensures x <= y ==> p * x <= p * y
  {
    MulSign(p, x - y);
    assert p * (x - y) == p * x - p * y;
  }

  // After the borrow and the carry: t are the digits from b on, plus one, less a carry off the end.
  lemma Borrowed(d: seq<i8>, b: nat, m: int, u: int, small: bool, x: i8, t: seq<i8>, lost: int)
    requires b < |d| && Window(d, b, m, u, small) && -m <= x <= m && x == d[0] - Pow2(b)
    requires |t| == |d| - b && AreBits(t) && t[0] == 0 && Digits(1, t) == Digits(1, d[b..]) + 1 - lost * Pow2(|d| - b)
    requires small ==> lost == 0 && Pow2(b) * Digits(1, t) <= Pow2(|d| - 1)
    ensures Window([x] + d[1..b] + t, b + 1, m, u - lost * Pow2(|d|), small)
  {
    hide Digits, Pow2;
    PowTwice(b);
    PowTwice(b - 1);
    BorrowedValue(d, b, x, t, lost);
  }

  lemma BorrowedValue(d: seq<i8>, b: nat, x: i8, t: seq<i8>, lost: int)
    requires b < |d| && Cleared(d, b) && x == d[0] - Pow2(b) && |t| == |d| - b
    requires Digits(1, t) == Digits(1, d[b..]) + 1 - lost * Pow2(|d| - b)
    ensures var e := [x] + d[1..b] + t;
            Digits(1, e) == Digits(1, d) - lost * Pow2(|d|) && Digits(1, e) - x == Pow2(b) * Digits(1, t)
  {
    hide Digits, Pow2;
    var e := [x] + d[1..b] + t;
    assert e[b..] == t;
    HeadAndTail(d, b);
    HeadAndTail(e, b);
    Pow2Add(b, |d| - b);
    CarryOff(Pow2(b), Digits(1, d[b..]), lost, Pow2(|d| - b));
  }

  lemma CarryOff(p: int, w: int, lost: int, q: int)
    ensures p * (w + 1 - lost * q) == p * w + p - lost * (p * q)
  {
    assert p * (lost * q) == lost * (p * q);
  }

  // One window: lines 256-276 for the digit at j. A carry off digit 255 is lost, which cannot happen to a small number.
  method Slide(r: array<i8>, j: nat, m: int, ghost small: bool) returns (ghost lost: nat)
    requires r.Length == 256 && j < 256 && 0 < m < 0x80
    requires AreBits(r[j..]) && r[j] == 1 && (small ==> Digits(1, r[j..]) <= Pow2(255 - j))
    modifies r
    ensures r[..j] == old(r[..j]) && AreBits(r[j + 1..])
    ensures Digits(1, r[j..]) == Digits(1, old(r[j..])) - lost * Pow2(256 - j)
    ensures r[j] % 2 == 1 && -m <= r[j] <= m
    ensures small ==> lost == 0 && 2 * Digits(1, r[j + 1..]) <= Pow2(255 - j)
  {
    hide Digits, Pow2, Window, Shl;
    ghost var u, p := Digits(1, r[j..]), Pow2(256 - j);
    StartWindow(r[j..], m, small);
    var bEnd := if 256 - j > 7 then 7 else 256 - j;
    var b := 1;
    lost := 0;
    while b < bEnd
      invariant 1 <= b <= bEnd && r[..j] == old(r[..j]) && (small ==> lost == 0)
      invariant Window(r[j..], b, m, u - lost * p, small)
    {
      var stop, more := Extend(r, j, b, m, u - lost * p, small);
      LoseMore(u, lost, more, p);
      lost := lost + more;
      if stop {
        break;
      }
      b := b + 1;
    }
    EndWindow(r[j..], b, m, u - lost * p, small);
    assert r[j..][1..] == r[j + 1..];
  }

  lemma LoseMore(u: int, lost: int, more: int, p: int)
    ensures u - (lost + more) * p == u - lost * p - more * p && u - 0 * p == u
  {
  }

  // The body of the inner loop, which stops where bit b fits neither way.
  method Extend(r: array<i8>, j: nat, b: nat, m: int, ghost u: int, ghost small: bool) returns (stop: bool,
      ghost lost: nat)
    requires r.Length == 256 && j + b < 256 && 0 < m < 0x80 && Window(r[j..], b, m, u, small) &&
             (small ==> u <= Pow2(255 - j))
    modifies r
    ensures r[..j] == old(r[..j]) && (small ==> lost == 0)
    ensures Window(r[j..], if stop then b else b + 1, m, u - lost * Pow2(256 - j), small)
  {
    hide Digits, Pow2, Window, Shl;
    ghost var d := r[j..];
    WindowRange(d, b, m, u, small);
    LoseMore(u, 0, 0, Pow2(256 - j));
    stop, lost := false, 0;
    var x := r[j] + Shl(r[j + b], b);
    if x <= m {
      Absorb(d, b, m, u, small, x);
      r[j] := x;
      r[j + b] := 0;
      assert r[j..] == d[0 := r[j]][b := 0];
    } else {
      x := r[j] - Shl(r[j + b], b);
      if x >= -m {
        if small {
          BorrowRoom(d, b, m, u);
        }
        assert r[j + b..] == d[b..] && r[j + 1..j + b] == d[1..b];
        lost := Borrow(r, j, b, x);
        Borrowed(d, b, m, u, small, x, r[j + b..], lost);
      } else if r[j + b] != 0 {
        stop := true;
      }
    }
  }

  method Borrow(r: array<i8>, j: nat, b: nat, x: i8) returns (ghost lost: nat)
    requires 0 < b && j + b < r.Length && AreBits(r[j + b..]) && r[j + b] == 1
    modifies r
    ensures r[..j] == old(r[..j]) && AreBits(r[j + b..]) && r[j + b] == 0
    ensures r[j..] == [x] + old(r[j + 1..j + b]) + r[j + b..]
    ensures Digits(1, r[j + b..]) == Digits(1, old(r[j + b..])) + 1 - lost * Pow2(r.Length - (j + b))
    ensures lost == if Digits(1, old(r[j + b..])) + 1 < Pow2(r.Length - (j + b)) then 0 else 1
  {
    hide Digits, Pow2, AreBits;
    ghost var w, n := Digits(1, r[j + b..]) + 1, Pow2(r.Length - (j + b));
    BitsRange(r[j + b..]);
    lost := if w < n then 0 else 1;
    r[j] := x;
    assert r[j + b..] == old(r[j + b..]);
    Increment(r, j + b);
    assert r[..j] == r[..j + b][..j];
    assert r[j + 1..j + b] == r[..j + b][j + 1..j + b];
    assert r[j] == r[..j + b][j] == x;
    WrapOnce(w, n, w - lost * n);
  }

  lemma StartWindow(d: seq<i8>, m: int, small: bool)
    requires |d| > 0 && AreBits(d) && d[0] == 1 && (small ==> Digits(1, d) <= Pow2(|d| - 1)) && 0 < m
    ensures Window(d, 1, m, Digits(1, d) - 0 * Pow2(|d|), small)
  {
    assert Pow2(1) == 2;
    hide Digits;
  }

  lemma WindowRange(d: seq<i8>, b: nat, m: int, u: int, small: bool)
    requires Window(d, b, m, u, small) && b < |d| && 0 < m < 0x80
    ensures 1 <= b && (d[b] == 0 || d[b] == 1) && AreBits(d[b..]) && d[0] + Shl(d[b], b) >= -m && d[0] <= m
    ensures Shl(0, b) == 0 && Shl(1, b) == Pow2(b)
  {
    hide Digits, Pow2, Shl;
    ShlBit(b);
  }

  lemma EndWindow(d: seq<i8>, b: nat, m: int, u: int, small: bool)
    requires Window(d, b, m, u, small)
    ensures AreBits(d[1..]) && Digits(1, d) == u && -m <= d[0] <= m && d[0] % 2 == 1
    ensures small ==> 2 * Digits(1, d[1..]) <= Pow2(|d| - 1)
  {
    HeadAndTail(d, 1);
  }

  lemma SuffixTotal(d: seq<i8>, e: seq<i8>, j: nat, lost: int)
    requires |d| == |e| && j <= |d| && d[..j] == e[..j] && Digits(1, d[j..]) == Digits(1, e[j..]) - lost * Pow2(|d| - j)
    ensures Digits(1, d) == Digits(1, e) - lost * Pow2(|d|)
  {
    hide Digits, Pow2;
    assert d == d[..j] + d[j..] && e == e[..j] + e[j..];
    DigitsConcat(1, d[..j], d[j..]);
    DigitsConcat(1, e[..j], e[j..]);
    Pow2Add(j, |d| - j);
    assert 1 * j == j;
    ScaleLoss(Pow2(j), Digits(1, e[j..]), lost, Pow2(|d| - j));
  }

  lemma ScaleLoss(p: int, w: int, lost: int, q: int)
    ensures p * (w - lost * q) == p * w - lost * (p * q)
  {
    assert p * (lost * q) == lost * (p * q);
  }

  // Every nonzero digit is odd and at most m in size, so that half of it indexes a table of (m + 1) / 2 odd
  // multiples. The digits stand for the scalar less a multiple of 2^256, the carries that ran off digit 255, and none
  // does for a scalar up to 2^255.
  method SlidingWindow(r: array<i8>, s: seq<u64>, m: int) returns (ghost lost: nat)
    requires r.Length == 256 && IsScalar(s) && 0 < m < 0x80
    modifies r
    ensures Digits(1, r[..]) == Value(s) - lost * Pow2(256)
    ensures Value(s) <= Pow2(255) ==> lost == 0 && Digits(1, r[..]) == Value(s)
    ensures forall k :: 0 <= k < 256 ==> r[k] == 0 || (r[k] % 2 == 1 && -m <= r[k] <= m)
  {
    hide Digits, Pow2, Value;
    Expand(r, s, 1);
    ghost var total, p := Digits(1, r[..]), Pow2(256);
    ghost var small := total <= Pow2(255);
    assert r[0..] == r[..];
    lost := 0;
    LoseMore(total, 0, 0, p);
    ExpandedBits(r[..]);
    for j := 0 to 256
      invariant Digits(1, r[..]) == total - lost * p && AreBits(r[j..])
      invariant small ==> lost == 0 && (j < 256 ==> Digits(1, r[j..]) <= Pow2(255 - j))
      invariant forall k :: 0 <= k < j ==> r[k] == 0 || (r[k] % 2 == 1 && -m <= r[k] <= m)
    {
      ghost var d := r[..];
      assert d[j..] == r[j..] && d[..j] == r[..j];
      if r[j] != 0 {
        ghost var more := Slide(r, j, m, small);
        assert forall k :: 0 <= k < j ==> r[k] == r[..j][k];
        SuffixTotal(r[..], d, j, more);
        LoseMore(total, lost, more, p);
        lost := lost + more;
      } else {
        HeadAndTail(r[j..], 1);
        assert r[j..][1..] == r[j + 1..];
      }
      if j < 255 {
        PowTwice(254 - j);
      }
    }
  }

  lemma ExpandedBits(d: seq<i8>)
    requires forall k :: 0 <= k < |d| ==> 0 <= d[k] < Pow2(1)
    ensures AreBits(d)
  {
    assert Pow2(1) == 2;
  }
}
