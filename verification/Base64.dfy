/** The base64 encoder, hc/core/hc/base64.c, in one memory that may hold both its input and its output. */
module Base64 {
  import opened Words
  import opened Memory

  // A-Z, a-z, 0-9, + and /.
  const TABLE: seq<u8> := Letters(65, 26) + Letters(97, 26) + Letters(48, 10) + [43, 47]

  function Letters(from: nat, n: nat): (s: seq<u8>)
    requires from + n <= 0x100
    ensures |s| == n
  {
    seq(n, k requires 0 <= k < n => from + k)
  }

  const PAD: u8 := 61

  function EncodeSize(n: nat): nat {
    (n + 2) / 3 * 4
  }

  type Sextet = x: int | 0 <= x < 64

  function Letter(i: Sextet): u8 {
    TABLE[i]
  }

  // The groups of section 4 of RFC 4648.

  function Group(a: u8, b: u8, c: u8): (r: seq<u8>)
    ensures |r| == 4
  {
    [Letter(a / 4), Letter(a % 4 * 16 + b / 16), Letter(b % 16 * 4 + c / 64), Letter(c % 64)]
  }

  function Encode(s: seq<u8>): (r: seq<u8>)
    ensures |r| == EncodeSize(|s|)
  {
    if |s| == 0 then []
    else if |s| == 1 then [Letter(s[0] / 4), Letter(s[0] % 4 * 16), PAD, PAD]
    else if |s| == 2 then [Letter(s[0] / 4), Letter(s[0] % 4 * 16 + s[1] / 16), Letter(s[1] % 16 * 4), PAD]
    else
      assert (|s| + 2) / 3 == 1 + (|s| - 3 + 2) / 3;
      Group(s[0], s[1], s[2]) + Encode(s[3..])
  }

  // The 24 bits of three bytes, in four sextets.
  lemma GroupValue(a: u8, b: u8, c: u8)
    ensures var g := Group(a, b, c);
            ((Digit(g[0]) * 64 + Digit(g[1])) * 64 + Digit(g[2])) * 64 + Digit(g[3]) ==
            a as int * 0x10000 + b as int * 0x100 + c
  {
    hide Letter, Digit;
    DigitOfTable(a / 4);
    DigitOfTable(a % 4 * 16 + b / 16);
    DigitOfTable(b % 16 * 4 + c / 64);
    DigitOfTable(c % 64);
  }

  // Two `=` end the encoding of one byte too many for whole groups, one `=` that of two.
  lemma {:induction false} PadBytes(s: seq<u8>)
    ensures var e := Encode(s);
            (|s| % 3 == 1 ==> e[|e| - 2..] == [61, 61]) &&
            (|s| % 3 == 2 ==> e[|e| - 1] == 61 && e[|e| - 2] != 61) &&
            (|s| % 3 == 0 && s != [] ==> e[|e| - 1] != 61)
  {
    hide Encode, Letter;
    EncodeFirst(s);
    if |s| == 2 {
      DigitOfTable(s[1] % 16 * 4);
    } else if |s| == 3 {
      DigitOfTable(s[2] % 64);
    } else if |s| > 3 {
      PadBytes(s[3..]);
      SizeLeft(|s|);
      var g, f := Group(s[0], s[1], s[2]), Encode(s[3..]);
      assert (g + f)[|g + f| - 2..] == f[|f| - 2..];
      assert (g + f)[|g + f| - 2] == f[|f| - 2] && (g + f)[|g + f| - 1] == f[|f| - 1];
    }
  }

  lemma SizeLeft(n: nat)
    requires n > 3
    ensures EncodeSize(n - 3) >= 4 && n % 3 == (n - 3) % 3
  {
  }

  lemma EncodeFirst(s: seq<u8>)
    ensures |s| == 1 ==> Encode(s) == [Letter(s[0] / 4), Letter(s[0] % 4 * 16), 61, 61]
    ensures |s| == 2 ==>
              Encode(s) == [Letter(s[0] / 4), Letter(s[0] % 4 * 16 + s[1] / 16), Letter(s[1] % 16 * 4), 61]
    ensures |s| == 3 ==> Encode(s) == Group(s[0], s[1], s[2])
    ensures |s| >= 3 ==> Encode(s) == Group(s[0], s[1], s[2]) + Encode(s[3..])
  {
    hide Letter, Group;
    if |s| == 3 {
      assert Encode(s[3..]) == [];
    }
  }

  // The decoder of section 4 of RFC 4648: an alphabet by ranges, padding only at the end, unused bits zero.

  // 64 for a byte outside the alphabet.
  function Digit(x: u8): nat {
    if 65 <= x <= 90 then x - 65
    else if 97 <= x <= 122 then x - 97 + 26
    else if 48 <= x <= 57 then x - 48 + 52
    else if x == 43 then 62
    else if x == 47 then 63
    else 64
  }

  function Decode(t: seq<u8>): Option<seq<u8>> {
    if |t| == 0 then Some([])
    else if |t| < 4 then None
    else
      var a, b, c, d := Digit(t[0]), Digit(t[1]), Digit(t[2]), Digit(t[3]);
      if a == 64 || b == 64 then None
      else if t[2] == PAD && t[3] == PAD && |t| == 4 then
        if b % 16 != 0 then None else Some([(a * 64 + b) / 16])
      else if c == 64 then None
      else if t[3] == PAD && |t| == 4 then
        if c % 4 != 0 then None else Some([(a * 64 + b) / 16, (b * 64 + c) / 4 % 256])
      else if d == 64 then None
      else
        match Decode(t[4..])
        case None => None
        case Some(rest) => Some([(a * 64 + b) / 16, (b * 64 + c) / 4 % 256, (c * 64 + d) % 256] + rest)
  }

  lemma DigitOfTable(i: Sextet)
    ensures Digit(Letter(i)) == i && Letter(i) != PAD
  {
    TableByRange(i);
  }

  lemma DigitOfPad()
    ensures Digit(PAD) == 64
  {
  }

  lemma TableByRange(i: Sextet)
    ensures Letter(i) == if i < 26 then i + 65 else if i < 52 then i - 26 + 97 else if i < 62 then i - 52 + 48
            else if i == 62 then 43 else 47
  {
  }

  // The bits of three bytes, cut into sextets and put together again.
  lemma Recombine(a: u8, b: u8, c: u8)
    ensures var x, y, z, w := a / 4, a % 4 * 16 + b / 16, b % 16 * 4 + c / 64, c % 64;
            (x * 64 + y) / 16 == a && (y * 64 + z) / 4 % 256 == b && (z * 64 + w) % 256 == c
  {
    JoinTop(a, b / 16);
    JoinMiddle(a % 4, b, c / 64);
    JoinLow(b % 16, c);
  }

  lemma JoinTop(a: u8, b: int)
    requires 0 <= b < 16
    ensures (a / 4 * 64 + (a % 4 * 16 + b)) / 16 == a
  {
  }

  lemma JoinMiddle(a: int, b: u8, c: int)
    requires 0 <= a < 4 && 0 <= c < 4
    ensures ((a * 16 + b / 16) * 64 + (b % 16 * 4 + c)) / 4 % 256 == b
  {
    assert (a * 16 + b / 16) * 64 + (b % 16 * 4 + c) == 4 * (a * 256 + b) + c;
  }

  lemma JoinLow(b: int, c: u8)
    requires 0 <= b < 16
    ensures ((b * 4 + c / 64) * 64 + c % 64) % 256 == c
  {
    assert (b * 4 + c / 64) * 64 + c % 64 == 256 * b + c;
  }

  lemma DecodeGroup(x: Sextet, y: Sextet, z: Sextet, w: Sextet, t: seq<u8>)
    ensures Decode([Letter(x), Letter(y), Letter(z), Letter(w)] + t) ==
            match Decode(t)
            case None => None
            case Some(rest) => Some([(x * 64 + y) / 16, (y * 64 + z) / 4 % 256, (z * 64 + w) % 256] + rest)
  {
    hide Digit, Letter;
    DigitOfTable(x);
    DigitOfTable(y);
    DigitOfTable(z);
    DigitOfTable(w);
    assert ([Letter(x), Letter(y), Letter(z), Letter(w)] + t)[4..] == t;
  }

  lemma DecodeLast(x: Sextet, y: Sextet, z: Sextet)
    ensures y % 16 == 0 ==> Decode([Letter(x), Letter(y), PAD, PAD]) == Some([(x * 64 + y) / 16])
    ensures z % 4 == 0 ==>
              Decode([Letter(x), Letter(y), Letter(z), PAD]) == Some([(x * 64 + y) / 16, (y * 64 + z) / 4 % 256])
  {
    hide Digit, Letter;
    DigitOfTable(x);
    DigitOfTable(y);
    DigitOfTable(z);
    DigitOfPad();
  }

  lemma GroupDecodes(a: u8, b: u8, c: u8, t: seq<u8>)
    ensures Decode(t).Some? ==> Decode(Group(a, b, c) + t) == Some([a, b, c] + Decode(t).value)
  {
    hide Decode, Letter;
    Recombine(a, b, c);
    DecodeGroup(a / 4, a % 4 * 16 + b / 16, b % 16 * 4 + c / 64, c % 64, t);
  }

  // Every encoding decodes to what was encoded.
  lemma {:induction false} RoundTrip(s: seq<u8>)
    ensures Decode(Encode(s)) == Some(s)
  {
    hide Decode, Letter, Group;
    if |s| == 0 {
      DecodeNothing();
    } else if |s| == 1 {
      LastDecodes(s[0], 0);
      assert s == [s[0]];
    } else if |s| == 2 {
      LastDecodes(s[0], s[1]);
      assert s == [s[0], s[1]];
    } else {
      GroupDecodes(s[0], s[1], s[2], Encode(s[3..]));
      RoundTrip(s[3..]);
      assert s == [s[0], s[1], s[2]] + s[3..];
    }
  }

  lemma LastDecodes(a: u8, b: u8)
    ensures Decode([Letter(a / 4), Letter(a % 4 * 16), PAD, PAD]) == Some([a])
    ensures Decode([Letter(a / 4), Letter(a % 4 * 16 + b / 16), Letter(b % 16 * 4), PAD]) == Some([a, b])
  {
    hide Decode, Letter;
    Recombine(a, 0, 0);
    DecodeLast(a / 4, a % 4 * 16, 0);
    Recombine(a, b, 0);
    DecodeLast(a / 4, a % 4 * 16 + b / 16, b % 16 * 4);
  }

  // The converse: the decoder accepts nothing but encodings.
  lemma {:induction false} DecodedIsEncoding(t: seq<u8>)
    ensures Decode(t).Some? ==> Encode(Decode(t).value) == t
  {
    hide Letter, Digit, Encode;
    EncodeNothing();
    if |t| >= 4 && Decode(t).Some? {
      var a, b, c, d := Digit(t[0]), Digit(t[1]), Digit(t[2]), Digit(t[3]);
      LetterOfDigit(t[0]);
      LetterOfDigit(t[1]);
      DigitOfPad();
      if t[2] == PAD && t[3] == PAD && |t| == 4 {
        EncodeEnd(a, b, 0);
        assert t == [t[0], t[1], PAD, PAD];
      } else if t[3] == PAD && |t| == 4 {
        LetterOfDigit(t[2]);
        EncodeEnd(a, b, c);
        assert t == [t[0], t[1], t[2], PAD];
      } else {
        LetterOfDigit(t[2]);
        LetterOfDigit(t[3]);
        DecodedIsEncoding(t[4..]);
        EncodeFront(a, b, c, d, Decode(t[4..]).value);
        assert t == [t[0], t[1], t[2], t[3]] + t[4..];
      }
    }
  }

  lemma EncodeFront(a: Sextet, b: Sextet, c: Sextet, d: Sextet, s: seq<u8>)
    ensures (a * 64 + b) / 16 < 256
    ensures Encode([(a * 64 + b) / 16, (b * 64 + c) / 4 % 256, (c * 64 + d) % 256] + s) ==
            [Letter(a), Letter(b), Letter(c), Letter(d)] + Encode(s)
  {
    hide Letter;
    Resplit(a, b, c, d);
    var t := [(a * 64 + b) / 16, (b * 64 + c) / 4 % 256, (c * 64 + d) % 256];
    assert (t + s)[3..] == s;
  }

  lemma EncodeEnd(a: Sextet, b: Sextet, c: Sextet)
    ensures (a * 64 + b) / 16 < 256
    ensures b % 16 == 0 ==> Encode([(a * 64 + b) / 16]) == [Letter(a), Letter(b), PAD, PAD]
    ensures c % 4 == 0 ==> Encode([(a * 64 + b) / 16, (b * 64 + c) / 4 % 256]) == [Letter(a), Letter(b), Letter(c), PAD]
  {
    hide Letter;
    Resplit(a, b, c, 0);
  }

  lemma LetterOfDigit(x: u8)
    ensures Digit(x) <= 64 && (Digit(x) < 64 ==> Letter(Digit(x)) == x)
  {
    if Digit(x) < 64 {
      TableByRange(Digit(x));
    }
  }

  // The bits of four sextets, put together and cut again.
  lemma Resplit(a: Sextet, b: Sextet, c: Sextet, d: Sextet)
    ensures var x, y, z := (a * 64 + b) / 16, (b * 64 + c) / 4 % 256, (c * 64 + d) % 256;
            0 <= x < 256 && x / 4 == a && x % 4 * 16 + y / 16 == b && y % 16 * 4 + z / 64 == c && z % 64 == d &&
            (b % 16 == 0 ==> x % 4 * 16 == b) && (c % 4 == 0 ==> y % 16 * 4 == c)
  {
    CutTop(a, b);
    CutMiddle(b, c);
    CutLow(c, d);
  }

  lemma CutTop(a: Sextet, b: Sextet)
    ensures (a * 64 + b) / 16 == 4 * a + b / 16 && (4 * a + b / 16) / 4 == a && (4 * a + b / 16) % 4 == b / 16
  {
    DivModUnique(a * 64 + b, 16, 4 * a + b / 16, b % 16);
    DivModUnique(4 * a + b / 16, 4, a, b / 16);
  }

  lemma CutMiddle(b: Sextet, c: Sextet)
    ensures var y := (b * 64 + c) / 4 % 256;
            y == b % 16 * 16 + c / 4 && y / 16 == b % 16 && y % 16 == c / 4
  {
    DivModUnique(b * 64 + c, 4, 16 * b + c / 4, c % 4);
    DivModUnique(16 * b + c / 4, 256, b / 16, b % 16 * 16 + c / 4);
    DivModUnique(b % 16 * 16 + c / 4, 16, b % 16, c / 4);
  }

  lemma CutLow(c: Sextet, d: Sextet)
    ensures var z := (c * 64 + d) % 256;
            z == c % 4 * 64 + d && z / 64 == c % 4 && z % 64 == d
  {
    DivModUnique(c * 64 + d, 256, c / 4, c % 4 * 64 + d);
    DivModUnique(c % 4 * 64 + d, 64, c % 4, d);
  }

  lemma DecodeNothing()
    ensures Decode([]) == Some([])
  {
  }

  // The start of an encoding, group by group.
  lemma EncodeStep(s: seq<u8>, k: nat)
    requires 3 * k + 3 <= |s|
    ensures Encode(s[..3 * k + 3]) == Encode(s[..3 * k]) + Group(s[3 * k], s[3 * k + 1], s[3 * k + 2])
  {
    hide Letter;
    EncodeConcat(s[..3 * k], s[3 * k..3 * k + 3], k);
    assert s[..3 * k + 3] == s[..3 * k] + s[3 * k..3 * k + 3];
    assert Encode(s[3 * k..3 * k + 3]) == Group(s[3 * k], s[3 * k + 1], s[3 * k + 2]) + [];
  }

  lemma {:induction false} EncodeConcat(x: seq<u8>, y: seq<u8>, k: nat)
    requires |x| == 3 * k
    ensures Encode(x + y) == Encode(x) + Encode(y)
  {
    hide Letter, Group;
    if k == 0 {
      assert x + y == y;
    } else {
      EncodeConcat(x[3..], y, k - 1);
      assert (x + y)[3..] == x[3..] + y;
    }
  }

  // Encodes the n bytes at `source` to `out`. The two may overlap as long as the writer, which gains a byte on the
  // reader with every group, does not overtake it.
  method EncodeWithin(mem: array<u8>, out: nat, source: nat, n: nat)
    requires source + n <= mem.Length && out + EncodeSize(n) <= mem.Length
    requires source + n <= out || out + (n + 2) / 3 <= source + 1
    modifies mem
    ensures mem[..] == Splice(old(mem[..]), out, Encode(old(mem[source..source + n])))
  {
    hide Splice, Encode, EncodeSize;
    ghost var m, s := mem[..], mem[source..source + n];
    var k := EncodeGroups(mem, out, source, n);
    SizeBound(n, k);
    var remaining := n - 3 * k;
    if remaining > 0 {
      TailJoins(m, s, out, k);
      Unread(m, s, out, source, k);
      assert mem[source + 3 * k..source + n] == mem[..][source + 3 * k..source + n];
      EncodeTail(mem, out + 4 * k, source + 3 * k, remaining);
    } else {
      assert s[..3 * k] == s;
    }
  }

  // Lines 11-22: the whole groups. Returns how many there are.
  method EncodeGroups(mem: array<u8>, out: nat, source: nat, n: nat) returns (k: nat)
    requires source + n <= mem.Length && out + EncodeSize(n) <= mem.Length
    requires source + n <= out || out + (n + 2) / 3 <= source + 1
    modifies mem
    ensures 3 * k <= n < 3 * k + 3 && |Encode(old(mem[source..source + n])[..3 * k])| == 4 * k
    ensures out + 4 * k <= mem.Length &&
            mem[..] == Splice(old(mem[..]), out, Encode(old(mem[source..source + n])[..3 * k]))
  {
    hide Splice, Encode, EncodeSize, Group;
    ghost var m, s := mem[..], mem[source..source + n];
    EncodeNothing();
    SpliceNothing(m, out, []);
    k := 0;
    while n - 3 * k >= 3
      invariant 3 * k <= n && out + 4 * k <= mem.Length && |Encode(s[..3 * k])| == 4 * k
      invariant mem[..] == Splice(m, out, Encode(s[..3 * k]))
    {
      UnreadGroup(m, s, out, source, k);
      GroupJoins(m, s, out, k);
      EncodeThree(mem, out + 4 * k, source + 3 * k);
      k := k + 1;
    }
  }

  // Lines 12-18: three bytes, all read before the first is written.
  method EncodeThree(mem: array<u8>, o: nat, i: nat)
    requires o + 4 <= mem.Length && i + 3 <= mem.Length
    modifies mem
    ensures mem[..] == Splice(old(mem[..]), o, Group(old(mem[i]), old(mem[i + 1]), old(mem[i + 2])))
  {
    hide Letter;
    var input0, input1, input2 := mem[i], mem[i + 1], mem[i + 2];
    mem[o] := Letter(input0 / 4);
    mem[o + 1] := Letter(input0 % 4 * 16 + input1 / 16);
    mem[o + 2] := Letter(input1 % 16 * 4 + input2 / 64);
    mem[o + 3] := Letter(input2 % 64);
  }

  // Another group behind those already written, and what is left over behind all of them.

  lemma GroupJoins(m: seq<u8>, s: seq<u8>, out: nat, k: nat)
    requires 3 * k + 3 <= |s| && out + EncodeSize(|s|) <= |m|
    ensures |Encode(s[..3 * k])| == 4 * k && out + 4 * k + 4 <= |m| && |Encode(s[..3 * k + 3])| == 4 * k + 4
    ensures Splice(Splice(m, out, Encode(s[..3 * k])), out + 4 * k, Group(s[3 * k], s[3 * k + 1], s[3 * k + 2]))
            == Splice(m, out, Encode(s[..3 * k + 3]))
  {
    hide Splice, Encode, EncodeSize, Group;
    SizeBound(|s|, k);
    EncodeStep(s, k);
    SpliceAppend(m, out, Encode(s[..3 * k]), Group(s[3 * k], s[3 * k + 1], s[3 * k + 2]));
  }

  lemma TailJoins(m: seq<u8>, s: seq<u8>, out: nat, k: nat)
    requires 3 * k <= |s| && out + EncodeSize(|s|) <= |m|
    ensures |Encode(s[..3 * k])| == 4 * k && |Encode(s[3 * k..])| + 4 * k == EncodeSize(|s|)
    ensures Splice(Splice(m, out, Encode(s[..3 * k])), out + 4 * k, Encode(s[3 * k..])) == Splice(m, out, Encode(s))
  {
    hide Splice, Encode, EncodeSize;
    SizeBound(|s|, k);
    EncodeConcat(s[..3 * k], s[3 * k..], k);
    assert s == s[..3 * k] + s[3 * k..];
    SpliceAppend(m, out, Encode(s[..3 * k]), Encode(s[3 * k..]));
  }

  // Lines 24-35: one or two bytes left over. The first output byte is written before the second input byte is read.
  method EncodeTail(mem: array<u8>, o: nat, i: nat, remaining: nat)
    requires 1 <= remaining <= 2 && o + 4 <= mem.Length && i + remaining <= mem.Length &&
             (remaining == 2 ==> o != i + 1)
    modifies mem
    ensures mem[..] == Splice(old(mem[..]), o, Encode(old(mem[i..i + remaining])))
  {
    hide Letter;
    var input0 := mem[i];
    mem[o] := Letter(input0 / 4);
    if remaining == 1 {
      mem[o + 1] := Letter(input0 % 4 * 16);
      mem[o + 2] := PAD;
    } else {
      var input1 := mem[i + 1];
      mem[o + 1] := Letter(input0 % 4 * 16 + input1 / 16);
      mem[o + 2] := Letter(input1 % 16 * 4);
    }
    mem[o + 3] := PAD;
  }

  lemma EncodeNothing()
    ensures Encode([]) == []
  {
  }

  lemma SizeBound(n: nat, k: nat)
    requires 3 * k <= n
    ensures 4 * k <= EncodeSize(n) && (3 * k < n ==> 4 * k + 4 <= EncodeSize(n)) && EncodeSize(3 * k) == 4 * k
    ensures 3 * k < n ==> k + 1 <= (n + 2) / 3
    ensures EncodeSize(n) == 4 * k + EncodeSize(n - 3 * k)
  {
    assert (n + 2) / 3 == k + (n - 3 * k + 2) / 3;
    assert (3 * k + 2) / 3 == k;
  }

  // The input from group k on has not been written over.
  lemma Unread(m: seq<u8>, s: seq<u8>, out: nat, source: nat, k: nat)
    requires 3 * k < |s| && source + |s| <= |m| && out + EncodeSize(|s|) <= |m| && s == m[source..source + |s|]
    requires source + |s| <= out || out + (|s| + 2) / 3 <= source + 1
    ensures |Encode(s[..3 * k])| == 4 * k && out + 4 * k <= |m| &&
            (source + |s| <= out || out + 4 * k <= source + 3 * k)
    ensures Splice(m, out, Encode(s[..3 * k]))[source + 3 * k..source + |s|] == s[3 * k..]
  {
    hide Splice, Encode, EncodeSize;
    SizeBound(|s|, k);
    SpliceOutside(m, out, Encode(s[..3 * k]), source + 3 * k, source + |s|);
  }

  lemma UnreadGroup(m: seq<u8>, s: seq<u8>, out: nat, source: nat, k: nat)
    requires 3 * k + 3 <= |s| && source + |s| <= |m| && out + EncodeSize(|s|) <= |m| && s == m[source..source + |s|]
    requires source + |s| <= out || out + (|s| + 2) / 3 <= source + 1
    ensures |Encode(s[..3 * k])| == 4 * k && out + 4 * k <= |m|
    ensures var w, i := Splice(m, out, Encode(s[..3 * k])), source + 3 * k;
            w[i] == s[3 * k] && w[i + 1] == s[3 * k + 1] && w[i + 2] == s[3 * k + 2]
  {
    hide Splice, Encode, EncodeSize;
    Unread(m, s, out, source, k);
    var t, i := Encode(s[..3 * k]), source + 3 * k;
    SpliceAt(m, out, t, i);
    SpliceAt(m, out, t, i + 1);
    SpliceAt(m, out, t, i + 2);
  }

  // The input at the end of the buffer, as the source's comment allows: the result is that of encoding into separate
  // memory.
  method EncodeInPlace(buffer: array<u8>, n: nat)
    requires buffer.Length == EncodeSize(n)
    modifies buffer
    ensures buffer[..] == Encode(old(buffer[buffer.Length - n..]))
  {
    hide Encode;
    var source := buffer.Length - n;
    assert n <= 3 * ((n + 2) / 3);
    assert buffer[source..source + n] == buffer[source..];
    EncodeWithin(buffer, 0, source, n);
    assert buffer[..] == buffer[..][0..EncodeSize(n)];
  }
}
