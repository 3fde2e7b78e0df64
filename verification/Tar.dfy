/** The tar writer, hc/tools/tar/common.c, and its reader, hc/tools/untar/common.c: fixed 512-byte headers with octal
    numbers, file contents padded to whole records, two zero records at the end. */
module Tar {
  import opened Words
  import opened Memory

  const RECORD_SIZE: nat := 512
  const OFFSET_NAME: nat := 0
  const OFFSET_MODE: nat := 100
  const OFFSET_SIZE: nat := 124
  const OFFSET_MTIME: nat := 136
  const OFFSET_CHKSUM: nat := 148
  const OFFSET_TYPEFLAG: nat := 156
  const OFFSET_MAGIC: nat := 257
  const OFFSET_VERSION: nat := 263
  const OFFSET_PREFIX: nat := 345
  const MAX_NAME_LEN: nat := 100
  const MAX_PREFIX_LEN: nat := 155
  // 077777777777
  const MAX_FILE_SIZE: nat := 8589934591

  const SLASH: u8 := 47
  const ZERO: u8 := 48
  const FIVE: u8 := 53
  // "0000777", "ustar"
  const MODE: seq<u8> := [48, 48, 48, 48, 55, 55, 55]
  const MAGIC: seq<u8> := [117, 115, 116, 97, 114]

  datatype Entry =
    | Directory(prefix: seq<u8>, name: seq<u8>)
    | File(prefix: seq<u8>, name: seq<u8>, content: seq<u8>)

  // Octal numbers.

  function Octal(x: nat, n: nat): (s: seq<u8>)
    ensures |s| == n
  {
    if n == 0 then [] else Octal(x / 8, n - 1) + [ZERO + x % 8]
  }

  // The number, or -1 if some byte is not an octal digit.
  function OctalValue(s: seq<u8>): (r: int)
    ensures r >= -1
  {
    if |s| == 0 then 0
    else
      var high, digit := OctalValue(s[..|s| - 1]), s[|s| - 1] as int - 48;
      if high < 0 || digit < 0 || digit > 7 then -1 else 8 * high + digit
  }

  lemma OctalNext(s: seq<u8>, k: nat)
    requires k < |s|
    ensures OctalValue(s[..k + 1]) ==
            var high, digit := OctalValue(s[..k]), s[k] as int - 48;
            if high < 0 || digit < 0 || digit > 7 then -1 else 8 * high + digit
    ensures OctalValue(s[..0]) == 0
  {
    assert s[..k + 1][..k] == s[..k];
  }

  function Pow8(n: nat): nat {
    if n == 0 then 1 else 8 * Pow8(n - 1)
  }

  lemma {:induction false} OctalRoundTrip(x: nat, n: nat)
    requires x < Pow8(n)
    ensures OctalValue(Octal(x, n)) == x
  {
    if n > 0 {
      OctalRoundTrip(x / 8, n - 1);
      assert Octal(x, n)[..n - 1] == Octal(x / 8, n - 1);
    }
  }

  // The digit that `(x >> 3 * i) & 7` selects.
  lemma {:induction false} OctalDigit(x: nat, n: nat, i: nat)
    requires i < n
    ensures Octal(x, n)[n - 1 - i] == ZERO + Shr(x, 3 * i) % 8
  {
    if i > 0 {
      OctalDigit(x / 8, n - 1, i - 1);
      ShrAdd(x, 3, 3 * (i - 1));
      ShrThree(x);
    }
  }

  lemma ShrThree(x: nat)
    ensures Shr(x, 3) == x / 8
  {
    assert Shr(x, 1) == x / 2 && Shr(x, 2) == x / 2 / 2 && Shr(x, 3) == x / 2 / 2 / 2;
  }

  lemma {:induction false} OctalBad(s: seq<u8>, k: nat)
    requires k <= |s| && OctalValue(s[..k]) < 0
    ensures OctalValue(s) == -1
    decreases |s| - k
  {
    if k < |s| {
      assert s[..k + 1][..k] == s[..k];
      OctalBad(s, k + 1);
    } else {
      assert s[..k] == s;
    }
  }

  function ByteSum(s: seq<u8>): nat {
    if |s| == 0 then 0 else ByteSum(s[..|s| - 1]) + s[|s| - 1]
  }

  lemma {:induction false} ByteSumBound(s: seq<u8>)
    ensures ByteSum(s) <= 255 * |s|
  {
    if |s| > 0 {
      ByteSumBound(s[..|s| - 1]);
    }
  }

  // The header of an entry.

  function Fields(prefix: seq<u8>, name: seq<u8>): (h: seq<u8>)
    requires |name| <= MAX_NAME_LEN && |prefix| <= MAX_PREFIX_LEN
    ensures |h| == RECORD_SIZE
  {
    name + Fill(0, OFFSET_PREFIX - |name|) + prefix + Fill(0, RECORD_SIZE - OFFSET_PREFIX - |prefix|)
  }

  // The header with blanks for the checksum.
  function Unsummed(prefix: seq<u8>, name: seq<u8>, typeflag: u8, size: nat): (h: seq<u8>)
    requires |name| <= MAX_NAME_LEN && |prefix| <= MAX_PREFIX_LEN
    ensures |h| == RECORD_SIZE
  {
    var h1 := Splice(Fields(prefix, name), OFFSET_MODE, MODE);
    var h2 := Splice(h1, OFFSET_SIZE, Octal(size, 11));
    var h3 := Splice(h2, OFFSET_MTIME, Fill(ZERO, 11));
    var h4 := Splice(h3, OFFSET_CHKSUM, Fill(32, 8));
    var h5 := Splice(h4, OFFSET_TYPEFLAG, [typeflag]);
    var h6 := Splice(h5, OFFSET_MAGIC, MAGIC);
    Splice(h6, OFFSET_VERSION, Fill(ZERO, 2))
  }

  function Record(prefix: seq<u8>, name: seq<u8>, typeflag: u8, size: nat): (h: seq<u8>)
    requires |name| <= MAX_NAME_LEN && |prefix| <= MAX_PREFIX_LEN
    ensures |h| == RECORD_SIZE
  {
    var h := Unsummed(prefix, name, typeflag, size);
    Splice(h, OFFSET_CHKSUM, Octal(ByteSum(h), 7))
  }

  lemma UnsummedAt(prefix: seq<u8>, name: seq<u8>, typeflag: u8, size: nat, i: nat)
    requires |name| <= MAX_NAME_LEN && |prefix| <= MAX_PREFIX_LEN && i < RECORD_SIZE
    ensures Unsummed(prefix, name, typeflag, size)[i] ==
            if 100 <= i < 107 then MODE[i - 100]
            else if 124 <= i < 135 then Octal(size, 11)[i - 124]
            else if 136 <= i < 147 then ZERO
            else if 148 <= i < 156 then 32
            else if i == 156 then typeflag
            else if 257 <= i < 262 then MAGIC[i - 257]
            else if 263 <= i < 265 then ZERO
            else Fields(prefix, name)[i]
  {
    hide Octal, Fields, Splice;
    var h1 := Splice(Fields(prefix, name), OFFSET_MODE, MODE);
    var h2 := Splice(h1, OFFSET_SIZE, Octal(size, 11));
    var h3 := Splice(h2, OFFSET_MTIME, Fill(ZERO, 11));
    var h4 := Splice(h3, OFFSET_CHKSUM, Fill(32, 8));
    var h5 := Splice(h4, OFFSET_TYPEFLAG, [typeflag]);
    var h6 := Splice(h5, OFFSET_MAGIC, MAGIC);
    SpliceAt(Fields(prefix, name), OFFSET_MODE, MODE, i);
    SpliceAt(h1, OFFSET_SIZE, Octal(size, 11), i);
    SpliceAt(h2, OFFSET_MTIME, Fill(ZERO, 11), i);
    SpliceAt(h3, OFFSET_CHKSUM, Fill(32, 8), i);
    SpliceAt(h4, OFFSET_TYPEFLAG, [typeflag], i);
    SpliceAt(h5, OFFSET_MAGIC, MAGIC, i);
    SpliceAt(h6, OFFSET_VERSION, Fill(ZERO, 2), i);
  }

  // The fields that the reader looks at.
  lemma RecordFields(prefix: seq<u8>, name: seq<u8>, typeflag: u8, size: nat)
    requires |name| <= MAX_NAME_LEN && |prefix| <= MAX_PREFIX_LEN
    ensures var r, f := Record(prefix, name, typeflag, size), Fields(prefix, name);
            r[..OFFSET_MODE] == f[..OFFSET_MODE] && r[OFFSET_MODE..OFFSET_MODE + 7] == MODE &&
              r[OFFSET_MODE + 7] == 0 &&
            r[OFFSET_SIZE..OFFSET_SIZE + 11] == Octal(size, 11) && r[OFFSET_TYPEFLAG] == typeflag &&
            r[OFFSET_PREFIX..] == f[OFFSET_PREFIX..]
  {
    hide Octal, ByteSum, Fields, Unsummed, Splice;
    var h := Unsummed(prefix, name, typeflag, size);
    var r := Record(prefix, name, typeflag, size);
    FieldsLayout(prefix, name);
    forall i | 0 <= i < RECORD_SIZE
      ensures !(148 <= i < 155) ==> r[i] == h[i]
    {
      SpliceAt(h, OFFSET_CHKSUM, Octal(ByteSum(h), 7), i);
    }
    forall i | 0 <= i < RECORD_SIZE
      ensures 100 <= i < 107 ==> h[i] == MODE[i - 100]
      ensures 124 <= i < 135 ==> h[i] == Octal(size, 11)[i - 124]
      ensures i == 156 ==> h[i] == typeflag
      ensures i < 100 || i == 107 || i >= 345 ==> h[i] == Fields(prefix, name)[i]
    {
      UnsummedAt(prefix, name, typeflag, size, i);
    }
  }

  lemma FieldsLayout(prefix: seq<u8>, name: seq<u8>)
    requires |name| <= MAX_NAME_LEN && |prefix| <= MAX_PREFIX_LEN
    ensures var f := Fields(prefix, name);
            f[..|name|] == name && (forall i :: |name| <= i < OFFSET_PREFIX ==> f[i] == 0) &&
            f[OFFSET_PREFIX..OFFSET_PREFIX + |prefix|] == prefix && f[OFFSET_PREFIX + |prefix|] == 0
  {
  }

  // The checksum field holds the sum of the header's bytes, taken with the field blank.
  lemma ChecksumValid(prefix: seq<u8>, name: seq<u8>, typeflag: u8, size: nat)
    requires |name| <= MAX_NAME_LEN && |prefix| <= MAX_PREFIX_LEN
    ensures var r := Record(prefix, name, typeflag, size);
            OctalValue(r[OFFSET_CHKSUM..OFFSET_CHKSUM + 7]) == ByteSum(Splice(r, OFFSET_CHKSUM, Fill(32, 8)))
  {
    hide Octal, ByteSum, Unsummed, OctalValue, Fill;
    var h := Unsummed(prefix, name, typeflag, size);
    UnsummedBlank(prefix, name, typeflag, size);
    ByteSumBound(h);
    assert Pow8(7) == 2097152;
    OctalRoundTrip(ByteSum(h), 7);
    var r := Record(prefix, name, typeflag, size);
    SpliceParts(h, OFFSET_CHKSUM, Octal(ByteSum(h), 7));
    Respliced(h, OFFSET_CHKSUM, Octal(ByteSum(h), 7), Fill(32, 8));
  }

  lemma Respliced(h: seq<u8>, at: nat, s: seq<u8>, t: seq<u8>)
    requires at + |t| <= |h| && |s| <= |t| && h[at..at + |t|] == t
    ensures Splice(Splice(h, at, s), at, t) == h
  {
    assert h == h[..at] + t + h[at + |t|..];
  }

  lemma UnsummedBlank(prefix: seq<u8>, name: seq<u8>, typeflag: u8, size: nat)
    requires |name| <= MAX_NAME_LEN && |prefix| <= MAX_PREFIX_LEN
    ensures Unsummed(prefix, name, typeflag, size)[OFFSET_CHKSUM..OFFSET_CHKSUM + 8] == Fill(32, 8)
  {
    hide Octal, Fields, Unsummed;
    forall i | 148 <= i < 156
      ensures Unsummed(prefix, name, typeflag, size)[i] == 32
    {
      UnsummedAt(prefix, name, typeflag, size, i);
    }
  }

  // What the archive holds.

  function PadBytes(n: nat): (r: nat)
    ensures r < RECORD_SIZE && (n + r) % RECORD_SIZE == 0
  {
    var a := n % RECORD_SIZE;
    var r := if a == 0 then 0 else RECORD_SIZE - a;
    DivModUnique(n + r, RECORD_SIZE, if a == 0 then n / RECORD_SIZE else n / RECORD_SIZE + 1, 0);
    r
  }

  ghost predicate NulFree(s: seq<u8>) {
    forall i :: 0 <= i < |s| ==> s[i] != 0
  }

  // What `writeRecord` accepts, from file names, which hold no NUL.
  ghost predicate Writable(e: Entry) {
    |e.name| <= MAX_NAME_LEN && NulFree(e.name) && |e.prefix| <= MAX_PREFIX_LEN && NulFree(e.prefix) &&
    (e.File? ==> |e.content| <= MAX_FILE_SIZE)
  }

  ghost predicate AllWritable(es: seq<Entry>) {
    forall i :: 0 <= i < |es| ==> Writable(es[i])
  }

  function Stored(e: Entry): (s: seq<u8>)
    requires |e.name| <= MAX_NAME_LEN && |e.prefix| <= MAX_PREFIX_LEN
  {
    match e
    case Directory(prefix, name) => Record(prefix, name, FIVE, 0)
    case File(prefix, name, content) => Record(prefix, name, ZERO, |content|) + content + Fill(0, PadBytes(|content|))
  }

  ghost function StoredAll(es: seq<Entry>): seq<u8>
    requires AllWritable(es)
  {
    if |es| == 0 then [] else Stored(es[0]) + StoredAll(es[1..])
  }

  ghost function Archive(es: seq<Entry>): seq<u8>
    requires AllWritable(es)
  {
    StoredAll(es) + Fill(0, 2 * RECORD_SIZE)
  }

  // Every byte of a header, in numbers.
  lemma HeaderByte(prefix: seq<u8>, name: seq<u8>, typeflag: u8, size: nat, i: nat)
    requires |name| <= 100 && |prefix| <= 155 && i < 512
    ensures var r := Record(prefix, name, typeflag, size);
            var sum := ByteSum(r[..148] + [32, 32, 32, 32, 32, 32, 32, 32] + r[156..]);
            r[i] ==
            if i < |name| then name[i]
            else if i < 100 then 0
            else if i < 104 then 48
            else if i < 107 then 55
            else if 124 <= i < 135 then 48 + Shr(size, 3 * (134 - i)) % 8
            else if 136 <= i < 147 then 48
            else if 148 <= i < 155 then 48 + Shr(sum, 3 * (154 - i)) % 8
            else if i == 155 then 32
            else if i == 156 then typeflag
            else if i == 257 then 0x75
            else if i == 258 then 0x73
            else if i == 259 then 0x74
            else if i == 260 then 0x61
            else if i == 261 then 0x72
            else if 263 <= i < 265 then 48
            else if 345 <= i < 345 + |prefix| then prefix[i - 345]
            else 0
  {
    hide Octal, ByteSum, Unsummed, Splice, Shr, Fields;
    var h, r := Unsummed(prefix, name, typeflag, size), Record(prefix, name, typeflag, size);
    BlankSum(prefix, name, typeflag, size);
    SpliceAt(h, OFFSET_CHKSUM, Octal(ByteSum(h), 7), i);
    UnsummedAt(prefix, name, typeflag, size, i);
    FieldAt(prefix, name, i);
    if 124 <= i < 135 {
      OctalDigit(size, 11, 134 - i);
    }
    if 148 <= i < 155 {
      OctalDigit(ByteSum(h), 7, 154 - i);
    }
  }

  lemma FieldAt(prefix: seq<u8>, name: seq<u8>, i: nat)
    requires |name| <= 100 && |prefix| <= 155 && i < 512
    ensures Fields(prefix, name)[i] ==
            if i < |name| then name[i] else if 345 <= i < 345 + |prefix| then prefix[i - 345] else 0
  {
  }

  lemma BlankSum(prefix: seq<u8>, name: seq<u8>, typeflag: u8, size: nat)
    requires |name| <= 100 && |prefix| <= 155
    ensures var h, r := Unsummed(prefix, name, typeflag, size), Record(prefix, name, typeflag, size);
            r[..148] + [32, 32, 32, 32, 32, 32, 32, 32] + r[156..] == h
  {
    hide Octal, ByteSum, Unsummed, Splice;
    var h, r := Unsummed(prefix, name, typeflag, size), Record(prefix, name, typeflag, size);
    var digits := Octal(ByteSum(h), 7);
    UnsummedBlank(prefix, name, typeflag, size);
    SpliceParts(h, OFFSET_CHKSUM, digits);
    assert r[156..] == r[155..][1..] == h[155..][1..] == h[156..];
    assert Fill(32, 8) == [32, 32, 32, 32, 32, 32, 32, 32];
    assert h == h[..148] + h[148..156] + h[156..];
  }

  // A stored entry in numbers: one record, and the content of a file padded to whole records.
  lemma StoredLayout(e: Entry)
    requires Writable(e)
    ensures var s, size := Stored(e), if e.File? then |e.content| else 0;
            |s| >= 512 && |s| % 512 == 0 && s[156] == (if e.Directory? then 0x35 else 0x30) &&
            s[257..262] == [0x75, 0x73, 0x74, 0x61, 0x72] && s[263..265] == [0x30, 0x30] &&
            s[100..107] == [0x30, 0x30, 0x30, 0x30, 0x37, 0x37, 0x37] &&
            s[..|e.name|] == e.name && s[345..345 + |e.prefix|] == e.prefix &&
            (forall i :: 124 <= i < 135 ==> s[i] == 48 + Shr(size, 3 * (134 - i)) % 8) &&
            (e.Directory? ==> |s| == 512) &&
            (e.File? ==> |s| < 1024 + size && s[512..512 + size] == e.content && forall k :: 512 + size <= k < |s| ==>
             s[k] == 0)
  {
    hide Record, Shr, ByteSum;
    StoredSize(e);
    var s, size, typeflag := Stored(e), if e.File? then |e.content| else 0, if e.Directory? then FIVE else ZERO;
    var r := Record(e.prefix, e.name, typeflag, size);
    assert s[..512] == r;
    forall i | 0 <= i < 512
      ensures i < |e.name| ==> r[i] == e.name[i]
      ensures 100 <= i < 104 ==> r[i] == 48
      ensures 104 <= i < 107 ==> r[i] == 55
      ensures 124 <= i < 135 ==> r[i] == 48 + Shr(size, 3 * (134 - i)) % 8
      ensures i == 156 ==> r[i] == typeflag
      ensures 257 <= i < 262 ==> r[i] == [0x75, 0x73, 0x74, 0x61, 0x72][i - 257]
      ensures 263 <= i < 265 ==> r[i] == 48
      ensures 345 <= i < 345 + |e.prefix| ==> r[i] == e.prefix[i - 345]
    {
      HeaderByte(e.prefix, e.name, typeflag, size, i);
    }
    forall k | 0 <= k < 512
      ensures s[k] == r[k]
    {
      assert s[k] == s[..512][k];
    }
  }

  // 1024 zeros end an archive.
  lemma ArchiveEnd(es: seq<Entry>)
    requires AllWritable(es)
    ensures StoredAll(es) <= Archive(es) && |Archive(es)| == |StoredAll(es)| + 1024
    ensures forall i :: |StoredAll(es)| <= i < |Archive(es)| ==> Archive(es)[i] == 0
  {
    hide StoredAll;
  }

  // What the reader makes of an archive: its exit status, and what it created.

  datatype Extraction = Extraction(status: int, created: seq<Entry>)

  function Prepend(es: seq<Entry>, x: Extraction): Extraction {
    Extraction(x.status, es + x.created)
  }

  // A NUL-terminated string in a record.
  function CString(block: seq<u8>, from: nat): seq<u8>
    decreases |block| - from
  {
    if from >= |block| || block[from] == 0 then [] else [block[from]] + CString(block, from + 1)
  }

  // Records that hold so many bytes.
  function Records(size: nat): (n: nat)
    ensures RECORD_SIZE * n == size + PadBytes(size)
  {
    (size + PadBytes(size)) / RECORD_SIZE
  }

  function Min(x: nat, y: nat): nat {
    if x < y then x else y
  }

  // `budget` is how many operations on the file system succeed: creating a directory or a file, and writing a
  // record's worth of content.
  function Extract(a: seq<u8>, zeros: nat, budget: nat): Extraction
    decreases |a|
  {
    if |a| < RECORD_SIZE then Extraction(1, [])
    else
      var block, rest := a[..RECORD_SIZE], a[RECORD_SIZE..];
      var prefix, name := CString(block, OFFSET_PREFIX), CString(block, OFFSET_NAME);
      var typeflag := block[OFFSET_TYPEFLAG];
      if typeflag == 0 then
        if block != Fill(0, RECORD_SIZE) then Extraction(1, [])
        else if zeros + 1 < 2 then Extract(rest, zeros + 1, budget)
        else Extraction(0, [])
      else if zeros > 0 then Extraction(1, [])
      else if typeflag == FIVE then
        if budget == 0 then Extraction(1, []) else Prepend([Directory(prefix, name)], Extract(rest, 0, budget - 1))
      else if typeflag != ZERO then Extraction(1, [])
      else
        var size := OctalValue(block[OFFSET_SIZE..OFFSET_SIZE + 11]);
        if size < 0 || budget == 0 then Extraction(1, [])
        else
          var done := Min(|rest| / RECORD_SIZE, budget - 1);
          // The input ends inside the content, or a write fails: what was written before stays.
          if done < Records(size) then Extraction(1, [File(prefix, name, rest[..RECORD_SIZE * done])])
          else
            Prepend([File(prefix, name, rest[..size])],
                    Extract(rest[RECORD_SIZE * Records(size)..], 0, budget - 1 - Records(size)))
  }

  lemma {:induction false} CStringIs(block: seq<u8>, from: nat, s: seq<u8>)
    requires from + |s| < |block| && block[from..from + |s|] == s && NulFree(s) && block[from + |s|] == 0
    ensures CString(block, from) == s
    decreases |s|
  {
    if |s| > 0 {
      assert block[from] == s[0];
      assert block[from + 1..from + 1 + (|s| - 1)] == s[1..];
      CStringIs(block, from + 1, s[1..]);
    }
  }

  // The name the reader sees: a name that fills its field runs on into the mode.
  function NameSeen(name: seq<u8>): (r: seq<u8>)
    ensures r == name <==> |name| != MAX_NAME_LEN
  {
    if |name| == MAX_NAME_LEN then name + MODE else name
  }

  function Seen(e: Entry): (r: Entry)
    ensures r == e <==> |e.name| != MAX_NAME_LEN
  {
    e.(name := NameSeen(e.name))
  }

  lemma StringsSeen(prefix: seq<u8>, name: seq<u8>, typeflag: u8, size: nat)
    requires |name| <= MAX_NAME_LEN && NulFree(name) && |prefix| <= MAX_PREFIX_LEN && NulFree(prefix)
    ensures var r := Record(prefix, name, typeflag, size);
            CString(r, OFFSET_NAME) == NameSeen(name) && CString(r, OFFSET_PREFIX) == prefix
  {
    hide Record, Fields, Octal;
    var r, f := Record(prefix, name, typeflag, size), Fields(prefix, name);
    RecordFields(prefix, name, typeflag, size);
    FieldsLayout(prefix, name);
    assert r[OFFSET_PREFIX..][..|prefix|] == f[OFFSET_PREFIX..][..|prefix|];
    assert r[OFFSET_PREFIX..][|prefix|] == f[OFFSET_PREFIX..][|prefix|];
    CStringIs(r, OFFSET_PREFIX, prefix);
    assert r[..|name|] == r[..OFFSET_MODE][..|name|] == f[..OFFSET_MODE][..|name|] == name;
    if |name| == MAX_NAME_LEN {
      assert r[..OFFSET_MODE + 7] == r[..OFFSET_MODE] + r[OFFSET_MODE..OFFSET_MODE + 7];
      CStringIs(r, OFFSET_NAME, name + MODE);
    } else {
      assert r[|name|] == r[..OFFSET_MODE][|name|] == f[..OFFSET_MODE][|name|];
      CStringIs(r, OFFSET_NAME, name);
    }
  }

  lemma SizeSeen(prefix: seq<u8>, name: seq<u8>, typeflag: u8, size: nat)
    requires |name| <= MAX_NAME_LEN && |prefix| <= MAX_PREFIX_LEN && size <= MAX_FILE_SIZE
    ensures OctalValue(Record(prefix, name, typeflag, size)[OFFSET_SIZE..OFFSET_SIZE + 11]) == size
  {
    hide Record, Fields, Octal, OctalValue;
    RecordFields(prefix, name, typeflag, size);
    assert Pow8(11) == 8589934592;
    OctalRoundTrip(size, 11);
  }

  // The operations it takes to create an entry.
  function Cost(e: Entry): nat {
    if e.Directory? then 1 else 1 + Records(|e.content|)
  }

  function Costs(es: seq<Entry>): nat {
    if |es| == 0 then 0 else Cost(es[0]) + Costs(es[1..])
  }

  lemma StoredSize(e: Entry)
    requires |e.name| <= MAX_NAME_LEN && |e.prefix| <= MAX_PREFIX_LEN
    ensures |Stored(e)| == RECORD_SIZE * Cost(e)
  {
    hide Record, Records;
  }

  // One entry, whatever follows it: created and passed by if it is all there and the file system does its part, and
  // the end of the extraction otherwise.
  lemma ExtractStored(e: Entry, a: seq<u8>, budget: nat)
    requires Writable(e) && (a <= Stored(e) || Stored(e) <= a)
    ensures if Stored(e) <= a && Cost(e) <= budget
            then Extract(a, 0, budget) == Prepend([Seen(e)], Extract(a[|Stored(e)|..], 0, budget - Cost(e)))
            else Extract(a, 0, budget).status == 1
  {
    hide Record, OctalValue, CString, PadBytes, Extract, Records;
    StoredSize(e);
    var typeflag, size := if e.Directory? then FIVE else ZERO, if e.Directory? then 0 else |e.content|;
    var block := Record(e.prefix, e.name, typeflag, size);
    ExtractStep(a, budget);
    if |a| >= RECORD_SIZE {
      assert Stored(e)[..RECORD_SIZE] == block;
      assert a[..RECORD_SIZE] == block;
      RecordFields(e.prefix, e.name, typeflag, size);
      StringsSeen(e.prefix, e.name, typeflag, size);
      SizeSeen(e.prefix, e.name, typeflag, size);
      if e.File? {
        StoredContent(e, a);
      }
    }
  }

  lemma StoredContent(e: Entry, a: seq<u8>)
    requires Writable(e) && e.File? && |a| >= RECORD_SIZE && (a <= Stored(e) || Stored(e) <= a)
    ensures Stored(e) <= a <==> |a[RECORD_SIZE..]| / RECORD_SIZE >= Records(|e.content|)
    ensures Stored(e) <= a ==> a[RECORD_SIZE..][..|e.content|] == e.content &&
                               a[RECORD_SIZE..][RECORD_SIZE * Records(|e.content|)..] == a[|Stored(e)|..]
  {
    hide Record, PadBytes, Records;
    StoredSize(e);
    var n, rest := Records(|e.content|), a[RECORD_SIZE..];
    assert |rest| >= RECORD_SIZE * n <==> |rest| / RECORD_SIZE >= n;
    if Stored(e) <= a {
      assert a[RECORD_SIZE..RECORD_SIZE + |e.content|] == Stored(e)[RECORD_SIZE..RECORD_SIZE + |e.content|] ==
             e.content;
    }
  }

  // The first record of an archive, case by case.
  lemma ExtractStep(a: seq<u8>, budget: nat)
    ensures |a| < RECORD_SIZE ==> Extract(a, 0, budget).status == 1
    ensures |a| >= RECORD_SIZE ==>
            var block, rest := a[..RECORD_SIZE], a[RECORD_SIZE..];
            var prefix, name := CString(block, OFFSET_PREFIX), CString(block, OFFSET_NAME);
            var size := OctalValue(block[OFFSET_SIZE..OFFSET_SIZE + 11]);
            (block[OFFSET_TYPEFLAG] == FIVE ==>
               if budget == 0 then Extract(a, 0, budget) == Extraction(1, [])
               else Extract(a, 0, budget) == Prepend([Directory(prefix, name)], Extract(rest, 0, budget - 1))) &&
            (block[OFFSET_TYPEFLAG] == ZERO && 0 <= size ==>
               var done := if budget == 0 then 0 else Min(|rest| / RECORD_SIZE, budget - 1);
               if budget == 0 then Extract(a, 0, budget) == Extraction(1, [])
               else if done < Records(size) then
                 RECORD_SIZE * done <= |rest| &&
                 Extract(a, 0, budget) == Extraction(1, [File(prefix, name, rest[..RECORD_SIZE * done])])
               else size <= |rest| && RECORD_SIZE * Records(size) <= |rest| &&
                    Extract(a, 0, budget) ==
                    Prepend([File(prefix, name, rest[..size])],
                            Extract(rest[RECORD_SIZE * Records(size)..], 0, budget - 1 - Records(size))))
  {
    hide OctalValue, CString, PadBytes, Records;
  }

  // The reader's choice by the type byte, in numbers.
  lemma TypeByteRead(a: seq<u8>, budget: nat)
    requires |a| >= 512 && budget > 0
    ensures var block := a[..512];
            var size := OctalValue(block[124..135]);
            var x := Extract(a, 0, budget);
            (block[156] == 0x35 ==>
               |x.created| > 0 && x.created[0] == Directory(CString(block, 345), CString(block, 0))) &&
            (block[156] == 0x30 && size >= 0 ==>
               |x.created| > 0 && x.created[0].File? && x.created[0].prefix == CString(block, 345) &&
               x.created[0].name == CString(block, 0) && x.created[0].content <= a[512..] &&
               (512 + size + 511 <= |a| && size < budget ==> x.created[0].content == a[512..512 + size])) &&
            (block[156] != 0 && block[156] != 0x30 && block[156] != 0x35 ==> x == Extraction(1, []))
  {
    hide OctalValue, CString, Extract, PadBytes, Records;
    ExtractStep(a, budget);
    ExtractStops(a, 0, budget);
    var block := a[..512];
    var size := OctalValue(block[124..135]);
    if block[156] == 0x30 && size >= 0 && 512 + size + 511 <= |a| && size < budget {
      RecordsSmall(size);
    }
  }

  lemma RecordsSmall(size: nat)
    ensures Records(size) <= size && 512 * Records(size) < size + 512
  {
  }

  // The records that end the extraction.
  lemma ExtractStops(a: seq<u8>, zeros: nat, budget: nat)
    requires |a| >= RECORD_SIZE
    ensures var block := a[..RECORD_SIZE];
            var typeflag := block[OFFSET_TYPEFLAG];
            (typeflag == 0 && block != Fill(0, RECORD_SIZE)) || (typeflag != 0 && zeros > 0) ||
            (typeflag != 0 && typeflag != FIVE && typeflag != ZERO) ||
            (typeflag == ZERO && OctalValue(block[OFFSET_SIZE..OFFSET_SIZE + 11]) < 0) ==>
              Extract(a, zeros, budget) == Extraction(1, [])
  {
    hide OctalValue, CString, PadBytes, Records, Fill;
  }

  // The end of an archive, or a part of it.
  lemma ExtractEnd(a: seq<u8>, budget: nat)
    requires a <= Fill(0, 2 * RECORD_SIZE)
    ensures Extract(a, 0, budget) == Extraction(if |a| == 2 * RECORD_SIZE then 0 else 1, [])
  {
    hide OctalValue, CString, PadBytes, Extract, Records;
    if |a| >= RECORD_SIZE {
      assert a[..RECORD_SIZE] == Fill(0, RECORD_SIZE);
      var b := a[RECORD_SIZE..];
      ExtractZero(a, 0, budget);
      if |b| == RECORD_SIZE {
        assert b[..RECORD_SIZE] == Fill(0, RECORD_SIZE);
      }
      ExtractZero(b, 1, budget);
    }
    ExtractZero(a, 0, budget);
  }

  lemma ExtractZero(a: seq<u8>, zeros: nat, budget: nat)
    ensures |a| < RECORD_SIZE ==> Extract(a, zeros, budget) == Extraction(1, [])
    ensures |a| >= RECORD_SIZE && a[..RECORD_SIZE] == Fill(0, RECORD_SIZE) ==>
              Extract(a, zeros, budget) == if zeros == 0 then Extract(a[RECORD_SIZE..], 1, budget)
                else Extraction(0, [])
  {
    hide OctalValue, CString, PadBytes, Records;
    if |a| >= RECORD_SIZE && a[..RECORD_SIZE] == Fill(0, RECORD_SIZE) {
      assert a[..RECORD_SIZE][OFFSET_TYPEFLAG] == 0;
    }
  }

  function SeenAll(es: seq<Entry>): (r: seq<Entry>)
    ensures |r| == |es|
  {
    seq(|es|, i requires 0 <= i < |es| => Seen(es[i]))
  }

  // Untarring an archive, or the part of it that there is. The exit status is 0 if and only if the archive is
  // complete and no operation fails, and then the entries are there in order, except for the names that fill their
  // field.
  lemma {:induction false} ExtractArchive(es: seq<Entry>, a: seq<u8>, budget: nat)
    requires AllWritable(es) && a <= Archive(es)
    ensures if a == Archive(es) && Costs(es) <= budget then Extract(a, 0, budget) == Extraction(0, SeenAll(es))
            else Extract(a, 0, budget).status == 1
    decreases |es|
  {
    hide Extract, Stored, Seen, Fill, Cost;
    var end := Fill(0, 2 * RECORD_SIZE);
    if |es| == 0 {
      assert [] + end == end;
      ExtractEnd(a, budget);
    } else {
      var first, others := Stored(es[0]), Archive(es[1..]);
      assert Archive(es) == first + others;
      ExtractStored(es[0], a, budget);
      if first <= a && Cost(es[0]) <= budget {
        var b := a[|first|..];
        assert a == first + b && b == (first + others)[|first|..|a|] == others[..|b|];
        assert a == Archive(es) <==> b == others;
        ExtractArchive(es[1..], b, budget - Cost(es[0]));
        assert SeenAll(es) == [Seen(es[0])] + SeenAll(es[1..]);
      }
    }
  }

  // The round trip holds exactly when every name leaves room for its terminator.
  lemma RoundTrip(es: seq<Entry>, budget: nat)
    requires AllWritable(es) && Costs(es) <= budget
    ensures Extract(Archive(es), 0, budget) == Extraction(0, es) <==> forall i :: 0 <= i < |es| ==> |es[i].name| <= 99
  {
    hide Extract, Archive, Costs;
    ExtractArchive(es, Archive(es), budget);
    if forall i :: 0 <= i < |es| ==> |es[i].name| <= 99 {
      assert SeenAll(es) == es;
    } else {
      var i :| 0 <= i < |es| && |es[i].name| > 99;
      assert SeenAll(es)[i] == Seen(es[i]) != es[i];
    }
  }

  // Entering and leaving directories.

  function Entered(prefix: seq<u8>, name: seq<u8>): seq<u8> {
    if prefix == [] then name else prefix + [SLASH] + name
  }

  // Up to the last slash.
  function Left(prefix: seq<u8>): seq<u8> {
    if prefix == [] then []
    else if prefix[|prefix| - 1] == SLASH then prefix[..|prefix| - 1]
    else Left(prefix[..|prefix| - 1])
  }

  lemma {:induction false} LeftAppend(p: seq<u8>, name: seq<u8>)
    ensures Left(p + name) == if SLASH in name then p + Left(name) else Left(p)
    ensures |Left(p)| <= |p|
    decreases |p| + |name|
  {
    if name == [] {
      assert p + name == p;
      if p != [] {
        LeftAppend(p[..|p| - 1], []);
      }
    } else {
      var init := name[..|name| - 1];
      assert (p + name)[..|p| + |name| - 1] == p + init;
      assert name == init + [name[|name| - 1]];
      LeftAppend(p, init);
    }
  }

  // `leaveDirectory` undoes `enterDirectory` exactly for names without a slash.
  lemma LeaveUndoesEnter(prefix: seq<u8>, name: seq<u8>)
    ensures SLASH !in name ==> Left(Entered(prefix, name)) == prefix
    ensures prefix != [] && SLASH in name ==> Left(Entered(prefix, name)) != prefix
  {
    hide Left;
    LeftAppend(prefix + [SLASH], name);
    LeftAppend([], name);
    LeftOne(prefix);
    assert [] + name == name;
  }

  lemma LeftOne(prefix: seq<u8>)
    ensures Left(prefix + [SLASH]) == prefix && Left([]) == []
  {
    assert (prefix + [SLASH])[..|prefix|] == prefix;
  }

  // Slashes and limits, in numbers.
  lemma PrefixAndLimits(prefix: seq<u8>, name: seq<u8>, at: nat, fileSize: int, length: nat, readFails: bool,
                        capacity: nat)
    ensures prefix != [] ==> Entered(prefix, name) == prefix + [47] + name
    ensures prefix == [] ==> Entered(prefix, name) == name
    ensures RecordStatus(at, |name|, |prefix|, fileSize, length, readFails, capacity) == -1 <==>
            |name| > 100 || |prefix| > 155 || fileSize > 8589934591
  {
  }

  // The other results of `writeRecord`: which step fails first.
  lemma ResultMeans(at: nat, nameLen: nat, prefixLen: nat, fileSize: int, length: nat, readFails: bool, capacity: nat)
    requires nameLen <= 100 && prefixLen <= 155 && fileSize <= 8589934591
    ensures var r := RecordStatus(at, nameLen, prefixLen, fileSize, length, readFails, capacity);
            var header, content, all := at + 512, at + 512 + length, at + 512 + (length + 511) / 512 * 512;
            (r == -2 <==> header > capacity) &&
            (r == -5 <==> header <= capacity && fileSize > 0 && content > capacity) &&
            (r == -3 <==> fileSize > 0 && content <= capacity && readFails) &&
            (r == -4 <==> fileSize > 0 && content <= capacity && !readFails && length != fileSize) &&
            (r == -6 <==> fileSize > 0 && content <= capacity && !readFails && length == fileSize && all > capacity) &&
            (r == 0 <==> header <= capacity &&
                         (fileSize <= 0 || (!readFails && length == fileSize && all <= capacity)))
  {
    RoundedUp(length);
    hide PadBytes;
  }

  lemma RoundedUp(n: nat)
    ensures n + PadBytes(n) == (n + 511) / 512 * 512 >= n
  {
  }

  class Writer {
    const buffer: array<u8>
    const prefix: array<u8>
    var prefixLen: nat
    // What the output holds, and how much it can take in all.
    var output: seq<u8>
    const capacity: nat

    ghost predicate Valid()
      reads this`prefixLen, this`output
    {
      |output| <= capacity &&
      buffer.Length == 65536 && prefix.Length == MAX_PREFIX_LEN + 1 + MAX_NAME_LEN && prefixLen <= prefix.Length &&
        buffer != prefix
    }

    ghost function Prefix(): seq<u8>
      requires prefixLen <= prefix.Length
      reads this`prefixLen, prefix
    {
      prefix[..prefixLen]
    }

    constructor (capacity: nat)
      ensures Valid() && fresh(buffer) && fresh(prefix) && Prefix() == [] && output == [] && this.capacity == capacity
    {
      this.capacity := capacity;
      buffer := new u8[65536];
      prefix := new u8[MAX_PREFIX_LEN + 1 + MAX_NAME_LEN];
      prefixLen := 0;
      output := [];
    }

    // The -p option.
    method SetPrefix(s: seq<u8>) returns (r: int)
      requires Valid()
      modifies this`prefixLen, prefix
      ensures Valid()
      ensures if |s| <= prefix.Length then r == 0 && Prefix() == s else r == -1 && Prefix() == old(Prefix())
    {
      if |s| > prefix.Length {
        return -1;
      }
      Store(prefix, 0, s);
      prefixLen := |s|;
      assert prefix[..] == s + old(prefix[..])[|s|..];
      r := 0;
    }

    method EnterDirectory(name: seq<u8>) returns (r: int)
      requires Valid() && |name| <= MAX_NAME_LEN
      modifies this`prefixLen, prefix
      ensures Valid()
      ensures if old(prefixLen) > MAX_PREFIX_LEN then r == -1 && Prefix() == old(Prefix())
              else r == 0 && Prefix() == Entered(old(Prefix()), name)
    {
      if prefixLen > 0 {
        if prefixLen > MAX_PREFIX_LEN {
          return -1;
        }
        prefix[prefixLen] := SLASH;
        prefixLen := prefixLen + 1;
      }
      ghost var before := prefix[..];
      Store(prefix, prefixLen, name);
      SpliceParts(before, prefixLen, name);
      assert prefix[..prefixLen + |name|] == before[..prefixLen] + name;
      prefixLen := prefixLen + |name|;
      r := 0;
    }

    method LeaveDirectory()
      requires Valid() && prefixLen > 0
      modifies this`prefixLen
      ensures Valid() && Prefix() == Left(old(Prefix()))
    {
      while true
        invariant 0 < prefixLen <= prefix.Length && Left(Prefix()) == Left(old(Prefix()))
        decreases prefixLen
      {
        ghost var before := Prefix();
        prefixLen := prefixLen - 1;
        assert before[..prefixLen] == Prefix();
        if prefix[prefixLen] == SLASH {
          break;
        }
        if prefixLen == 0 {
          break;
        }
      }
    }

    method Put(at: nat, t: seq<u8>)
      requires Valid() && at + |t| <= RECORD_SIZE
      modifies buffer
      ensures buffer[..RECORD_SIZE] == Splice(old(buffer[..RECORD_SIZE]), at, t)
    {
      SplicePrefix(buffer[..], at, t, RECORD_SIZE);
      assert buffer[..][..RECORD_SIZE] == buffer[..RECORD_SIZE];
      Store(buffer, at, t);
      assert buffer[..][..RECORD_SIZE] == buffer[..RECORD_SIZE];
    }

    method Clear(at: nat, n: nat)
      requires Valid() && at + n <= RECORD_SIZE
      modifies buffer
      ensures buffer[..RECORD_SIZE] == Splice(old(buffer[..RECORD_SIZE]), at, Fill(0, n))
    {
      hide Splice, Fill;
      SplicePrefix(buffer[..], at, Fill(0, n), RECORD_SIZE);
      assert buffer[..][..RECORD_SIZE] == buffer[..RECORD_SIZE];
      Memset(buffer, at, 0, n);
      assert buffer[..][..RECORD_SIZE] == buffer[..RECORD_SIZE];
    }

    method PutOctal(at: nat, x: nat, n: nat)
      requires Valid() && at + n <= RECORD_SIZE
      modifies buffer
      ensures buffer[..RECORD_SIZE] == Splice(old(buffer[..RECORD_SIZE]), at, Octal(x, n))
    {
      hide Octal, Shr;
      for i := 0 to n
        invariant forall j :: 0 <= j < RECORD_SIZE ==>
                  buffer[j] == if at + n - i <= j < at + n then Octal(x, n)[j - at] else old(buffer[j])
      {
        OctalDigit(x, n, i);
        buffer[at + n - 1 - i] := ZERO + Shr(x, 3 * i) % 8;
      }
    }

    method SumBuffer() returns (sum: nat)
      requires Valid()
      ensures sum == ByteSum(buffer[..RECORD_SIZE])
    {
      sum := 0;
      for i := 0 to RECORD_SIZE
        invariant sum == ByteSum(buffer[..i])
      {
        assert buffer[..i + 1][..i] == buffer[..i];
        sum := sum + buffer[i];
      }
    }

    // Lines 47-77.
    method Header(name: seq<u8>, typeflag: u8, fileSize: nat)
      requires Valid() && |name| <= MAX_NAME_LEN && prefixLen <= MAX_PREFIX_LEN
      modifies buffer
      ensures buffer[..RECORD_SIZE] == Record(Prefix(), name, typeflag, fileSize)
    {
      hide Splice, Fields, Octal, ByteSum, Fill;
      FieldsBySplices(buffer[..RECORD_SIZE], Prefix(), name);
      Put(OFFSET_NAME, name);
      Clear(OFFSET_NAME + |name|, OFFSET_PREFIX - (OFFSET_NAME + |name|));
      Put(OFFSET_PREFIX, prefix[..prefixLen]);
      Clear(OFFSET_PREFIX + prefixLen, RECORD_SIZE - (OFFSET_PREFIX + prefixLen));
      Put(OFFSET_MODE, MODE);
      PutOctal(OFFSET_SIZE, fileSize, 11);
      Put(OFFSET_MTIME, Fill(ZERO, 11));
      Put(OFFSET_CHKSUM, Fill(32, 8));
      Put(OFFSET_TYPEFLAG, [typeflag]);
      Put(OFFSET_MAGIC, MAGIC);
      Put(OFFSET_VERSION, Fill(ZERO, 2));
      var checksum := SumBuffer();
      PutOctal(OFFSET_CHKSUM, checksum, 7);
    }

    // `util_writeAll` on the output: all of it, or as much as there is room for and then an error.
    method WriteBuffer(size: nat) returns (status: int)
      requires Valid() && size <= buffer.Length
      modifies this`output
      ensures Valid() && output == Taken(old(output) + buffer[..size], capacity)
      ensures status == if |old(output)| + size <= capacity then 0 else -1
    {
      var room := capacity - |output|;
      if size <= room {
        output := output + buffer[..size];
        return 0;
      }
      output := output + buffer[..room];
      return -1;
    }

    // Lines 84-94: the content passes through the buffer in whatever pieces `read` delivers.
    method CopyContent(content: seq<u8>, cut: nat -> nat) returns (ok: bool)
      requires Valid()
      modifies this`output, buffer
      ensures Valid() && output == Taken(old(output) + content, capacity) &&
              ok == (|old(output)| + |content| <= capacity)
    {
      hide Taken, Splice;
      var rest, count := content, 0;
      while rest != []
        invariant Valid() && output + rest == old(output) + content
        decreases |rest|
      {
        ghost var before := output;
        var numRead := ReadSize(cut(count), buffer.Length, |rest|);
        SpliceParts(buffer[..], 0, rest[..numRead]);
        Store(buffer, 0, rest[..numRead]);
        assert buffer[..numRead] == buffer[..][0..numRead];
        var status := WriteBuffer(numRead);
        assert (before + rest[..numRead]) + rest[numRead..] == old(output) + content;
        TakenMore(before + rest[..numRead], rest[numRead..], capacity);
        if status < 0 {
          return false;
        }
        rest, count := rest[numRead..], count + 1;
      }
      assert output == output + rest == old(output) + content;
      TakenMore(output, [], capacity);
      ok := true;
    }

    // Writes the header, and the content of a file that is not empty; a negative size marks a directory. `content` is
    // what can be read from the file until it ends, or until reading fails.
    method WriteRecord(name: seq<u8>, fileSize: int, content: seq<u8>, readFails: bool,
                       cut: nat -> nat) returns (r: int)
      requires Valid()
      modifies this`output, buffer
      ensures Valid()
      ensures r == RecordStatus(|old(output)|, |name|, prefixLen, fileSize, |content|, readFails, capacity)
      ensures output == if r == -1 then old(output)
                        else Taken(old(output) + RecordBytes(Prefix(), name, fileSize, content, readFails), capacity)
    {
      hide Record, Fill, Taken;
      if |name| > MAX_NAME_LEN || prefixLen > MAX_PREFIX_LEN || fileSize > MAX_FILE_SIZE {
        return -1;
      }
      var typeflag, size := ZERO, fileSize;
      if fileSize < 0 {
        typeflag, size := FIVE, 0;
      }
      Header(name, typeflag, size);
      ghost var record := Record(Prefix(), name, typeflag, size);
      var status := WriteBuffer(RECORD_SIZE);
      ghost var more := RecordBytes(Prefix(), name, fileSize, content, readFails)[RECORD_SIZE..];
      TakenMore(old(output) + record, more, capacity);
      assert (old(output) + record) + more == old(output) + RecordBytes(Prefix(), name, fileSize, content, readFails);
      if status < 0 {
        return -2;
      }
      if size == 0 {
        assert (old(output) + record) + more == old(output) + record;
        return 0;
      }
      r := WriteContent(size, content, readFails, cut);
    }

    // Lines 83-98.
    method WriteContent(fileSize: nat, content: seq<u8>, readFails: bool, cut: nat -> nat) returns (r: int)
      requires Valid()
      modifies this`output, buffer
      ensures Valid() && r == ContentStatus(|old(output)|, fileSize, |content|, readFails, capacity)
      ensures output == Taken(old(output) + ContentBytes(fileSize, content, readFails), capacity)
    {
      hide Fill, Taken;
      ghost var padding := Fill(0, PadBytes(|content|));
      var ok := CopyContent(content, cut);
      TakenMore(old(output) + content, padding, capacity);
      assert (old(output) + content) + padding == old(output) + (content + padding);
      if !ok {
        return -5;
      }
      if readFails {
        return -3;
      }
      if |content| != fileSize {
        return -4;
      }
      var numPadBytes := PadBytes(|content|);
      Memset(buffer, 0, 0, numPadBytes);
      assert buffer[..numPadBytes] == buffer[0..numPadBytes];
      var status := WriteBuffer(numPadBytes);
      r := if status < 0 then -6 else 0;
    }

    method FinaliseOutput() returns (status: int)
      requires Valid()
      modifies this`output, buffer
      ensures Valid() && output == Taken(old(output) + Fill(0, 2 * RECORD_SIZE), capacity)
      ensures status == if |old(output)| + 2 * RECORD_SIZE <= capacity then 0 else -1
    {
      Memset(buffer, 0, 0, 2 * RECORD_SIZE);
      status := WriteBuffer(2 * RECORD_SIZE);
    }
  }

  // The part of a byte string that an output takes which can hold so many bytes.
  function Taken(s: seq<u8>, capacity: nat): seq<u8> {
    if |s| <= capacity then s else s[..capacity]
  }

  lemma TakenMore(x: seq<u8>, y: seq<u8>, capacity: nat)
    ensures |x| <= capacity ==> Taken(x, capacity) == x
    ensures |x| > capacity ==> Taken(x + y, capacity) == Taken(x, capacity)
  {
  }

  // What `writeRecord` sets out to write: padding follows only content of the expected size.
  function ContentBytes(fileSize: nat, content: seq<u8>, readFails: bool): seq<u8> {
    if readFails || |content| != fileSize then content else content + Fill(0, PadBytes(|content|))
  }

  function RecordBytes(prefix: seq<u8>, name: seq<u8>, fileSize: int, content: seq<u8>, readFails: bool): (s: seq<u8>)
    requires |name| <= MAX_NAME_LEN && |prefix| <= MAX_PREFIX_LEN
    ensures |s| >= RECORD_SIZE
  {
    if fileSize < 0 then Record(prefix, name, FIVE, 0)
    else
      Record(prefix, name, ZERO, fileSize) +
      (if fileSize == 0 then [] else ContentBytes(fileSize, content, readFails))
  }

  // Its result: the first limit, write or read that fails decides. `at` is what the output holds already.
  function RecordStatus(at: nat, nameLen: nat, prefixLen: nat, fileSize: int, length: nat, readFails: bool,
                        capacity: nat): (r: int)
    ensures r <= 0
  {
    if nameLen > MAX_NAME_LEN || prefixLen > MAX_PREFIX_LEN || fileSize > MAX_FILE_SIZE then -1
    else if at + RECORD_SIZE > capacity then -2
    else if fileSize <= 0 then 0
    else ContentStatus(at + RECORD_SIZE, fileSize, length, readFails, capacity)
  }

  function ContentStatus(at: nat, fileSize: nat, length: nat, readFails: bool, capacity: nat): int {
    if at + length > capacity then -5
    else if readFails then -3
    else if length != fileSize then -4
    else if at + length + PadBytes(length) > capacity then -6
    else 0
  }

  // An entry that can be read as announced is stored whole, or as far as there is room.
  lemma StoredBytes(e: Entry, at: nat, capacity: nat)
    requires Writable(e)
    ensures var content, size := if e.File? then e.content else [], if e.File? then |e.content| else -1;
            RecordBytes(e.prefix, e.name, size, content, false) == Stored(e) &&
            (RecordStatus(at, |e.name|, |e.prefix|, size, |content|, false, capacity) == 0 <==>
             at + |Stored(e)| <= capacity) &&
            RecordStatus(at, |e.name|, |e.prefix|, size, |content|, false, capacity) != -1
  {
    hide Record;
    if e.File? && e.content == [] {
      StoredEmpty(e.prefix, e.name);
    }
  }

  lemma SplicePrefix(m: seq<u8>, at: nat, t: seq<u8>, k: nat)
    requires at + |t| <= k <= |m|
    ensures Splice(m, at, t)[..k] == Splice(m[..k], at, t)
  {
  }

  lemma StoredEmpty(prefix: seq<u8>, name: seq<u8>)
    requires |name| <= MAX_NAME_LEN && |prefix| <= MAX_PREFIX_LEN
    ensures Stored(File(prefix, name, [])) == Record(prefix, name, ZERO, 0)
  {
    hide Record;
    assert PadBytes(0) == 0;
    assert Record(prefix, name, ZERO, 0) + [] + [] == Record(prefix, name, ZERO, 0);
  }

  lemma FieldsBySplices(h: seq<u8>, prefix: seq<u8>, name: seq<u8>)
    requires |h| == RECORD_SIZE && |name| <= MAX_NAME_LEN && |prefix| <= MAX_PREFIX_LEN
    ensures var h1 := Splice(h, 0, name);
            var h2 := Splice(h1, |name|, Fill(0, OFFSET_PREFIX - |name|));
            var h3 := Splice(h2, OFFSET_PREFIX, prefix);
            Splice(h3, OFFSET_PREFIX + |prefix|, Fill(0, RECORD_SIZE - (OFFSET_PREFIX + |prefix|))) ==
              Fields(prefix, name)
  {
    hide Fill, Splice;
    var z1, z2 := Fill(0, OFFSET_PREFIX - |name|), Fill(0, RECORD_SIZE - (OFFSET_PREFIX + |prefix|));
    SpliceAppend(h, 0, name, z1);
    SpliceAppend(h, 0, name + z1, prefix);
    SpliceAppend(h, 0, name + z1 + prefix, z2);
    SpliceAll(h, name + z1 + prefix + z2);
  }

  lemma SpliceAll(h: seq<u8>, t: seq<u8>)
    requires |t| == |h|
    ensures Splice(h, 0, t) == t
  {
  }

  class Reader {
    const buffer: array<u8>
    // What is still to be read, and how often `read` was called.
    var input: seq<u8>
    var count: nat
    // How many operations on the file system still succeed, and what was created, with everything written to each file.
    var budget: nat
    var created: seq<Entry>

    constructor (input: seq<u8>, budget: nat)
      ensures buffer.Length == RECORD_SIZE && fresh(buffer) && this.input == input && created == [] &&
              this.budget == budget
    {
      this.budget := budget;
      buffer := new u8[RECORD_SIZE];
      this.input := input;
      count := 0;
      created := [];
    }

    // Whether an operation succeeds: `createDir`, `createFile` or `writeToFile`.
    method Operate() returns (ok: bool)
      modifies this`budget
      ensures ok == (old(budget) > 0) && budget == if ok then old(budget) - 1 else 0
    {
      ok := budget > 0;
      if ok {
        budget := budget - 1;
      }
    }

    // `util_readAll` for one record, from reads of any size. A read that fails has the effect of the end of the input.
    method ReadInput(cut: nat -> nat) returns (ok: bool)
      requires buffer.Length == RECORD_SIZE
      modifies this`input, this`count, buffer
      ensures ok <==> |old(input)| >= RECORD_SIZE
      ensures ok ==> buffer[..] == old(input)[..RECORD_SIZE] && input == old(input)[RECORD_SIZE..]
    {
      var remaining := RECORD_SIZE;
      while remaining > 0
        invariant 0 <= remaining <= RECORD_SIZE && RECORD_SIZE - remaining <= |old(input)|
        invariant buffer[..RECORD_SIZE - remaining] == old(input)[..RECORD_SIZE - remaining] &&
                  input == old(input)[RECORD_SIZE - remaining..]
      {
        var offset := RECORD_SIZE - remaining;
        if input == [] {
          return false;
        }
        var numRead := ReadSize(cut(count), remaining, |input|);
        ghost var before := buffer[..];
        Store(buffer, offset, input[..numRead]);
        SpliceParts(before, offset, input[..numRead]);
        assert buffer[..offset + numRead] == before[..offset] + input[..numRead];
        input, count := input[numRead..], count + 1;
        remaining := remaining - numRead;
      }
      ok := true;
    }

    method ParseSize() returns (size: int)
      requires buffer.Length == RECORD_SIZE
      ensures size == OctalValue(buffer[OFFSET_SIZE..OFFSET_SIZE + 11])
    {
      hide OctalValue;
      ghost var field := buffer[OFFSET_SIZE..OFFSET_SIZE + 11];
      OctalNext(field, 0);
      size := 0;
      for i := 0 to 11
        invariant size == OctalValue(field[..i]) && size >= 0
      {
        OctalNext(field, i);
        var digit := buffer[OFFSET_SIZE + i] as int - 48;
        if digit < 0 || digit > 7 {
          OctalBad(field, i + 1);
          return -1;
        }
        size := 8 * size + digit;
      }
      assert field[..11] == field;
    }

    method IsZero() returns (zero: bool)
      requires buffer.Length == RECORD_SIZE
      ensures zero <==> buffer[..] == Fill(0, RECORD_SIZE)
    {
      for i := 0 to RECORD_SIZE
        invariant forall j :: 0 <= j < i ==> buffer[j] == 0
      {
        if buffer[i] != 0 {
          assert buffer[..][i] != Fill(0, RECORD_SIZE)[i];
          return false;
        }
      }
      zero := true;
    }

    method ReadString(from: nat) returns (s: seq<u8>)
      requires from <= buffer.Length
      ensures s == CString(buffer[..], from)
    {
      var i := from;
      s := [];
      while i < buffer.Length && buffer[i] != 0
        invariant i <= buffer.Length && s + CString(buffer[..], i) == CString(buffer[..], from)
      {
        s := s + [buffer[i]];
        i := i + 1;
      }
    }

    // Lines 71-77: the content of a file, record by record.
    method ReadContent(size: nat, cut: nat -> nat) returns (content: seq<u8>, left: nat)
      requires buffer.Length == RECORD_SIZE
      modifies this`input, this`count, this`budget, buffer
      ensures var done := Min(|old(input)| / RECORD_SIZE, old(budget));
              if done < Records(size) then left != 0 && content == old(input)[..RECORD_SIZE * done]
              else
                left == 0 && size <= |old(input)| && RECORD_SIZE * Records(size) <= |old(input)| &&
                content == old(input)[..size] &&
                input == old(input)[RECORD_SIZE * Records(size)..] && budget == old(budget) - Records(size)
    {
      hide PadBytes, Records;
      ghost var start, n := input, 0;
      left, content := size, [];
      RecordsUp(size, 0);
      while left > 0
        invariant left > 0 ==> size == 512 * n + left && 512 * n <= |start| && content == start[..512 * n] &&
                               input == start[512 * n..] && budget + n == old(budget)
        invariant left == 0 ==> size <= |start| && 512 * Records(size) <= |start| && content == start[..size] &&
                                input == start[512 * Records(size)..] && budget + Records(size) == old(budget)
        decreases left
      {
        RecordsUp(size, n);
        ghost var before := input;
        assert |start| / 512 == n + |before| / 512;
        var ok := ReadInput(cut);
        if !ok {
          return;
        }
        ok := Operate();
        if !ok {
          return;
        }
        var toWrite := if left > 512 then 512 else left;
        assert buffer[..toWrite] == before[..512][..toWrite] == start[512 * n..512 * n + toWrite];
        content := content + buffer[..toWrite];
        left := left - toWrite;
        n := n + 1;
      }
    }

    // The record loop: the exit status and everything created, for every input and every way of reading it.
    method Run(cut: nat -> nat) returns (status: int)
      requires buffer.Length == RECORD_SIZE
      modifies this`input, this`count, this`created, this`budget, buffer
      ensures Extraction(status, created) == Prepend(old(created), Extract(old(input), 0, old(budget)))
    {
      hide CString, OctalValue, PadBytes, Fill, Records, Extract;
      var zeroRecordCount := 0;
      status := 1;
      while true
        invariant zeroRecordCount < 2
        invariant Prepend(created, Extract(input, zeroRecordCount, budget)) ==
                  Prepend(old(created), Extract(old(input), 0, old(budget)))
        decreases |input|
      {
        ExtractZero(input, zeroRecordCount, budget);
        ExtractStep(input, budget);
        if |input| >= RECORD_SIZE {
          ExtractStops(input, zeroRecordCount, budget);
        }
        var ok := ReadInput(cut);
        if !ok {
          break;
        }
        var typeflag := buffer[OFFSET_TYPEFLAG];
        if typeflag == 0 {
          var zero := IsZero();
          if !zero {
            break;
          }
          zeroRecordCount := zeroRecordCount + 1;
          if zeroRecordCount < 2 {
            continue;
          }
          status := 0;
          break;
        }
        if zeroRecordCount > 0 {
          break;
        }
        var prefix := ReadString(OFFSET_PREFIX);
        var name := ReadString(OFFSET_NAME);
        if typeflag == FIVE {
          ok := Operate();
          if !ok {
            break;
          }
          PrependTwice(created, Directory(prefix, name), Extract(input, 0, budget));
          created := created + [Directory(prefix, name)];
          continue;
        }
        if typeflag != ZERO {
          break;
        }
        var size := ParseSize();
        if size < 0 {
          break;
        }
        ok := Operate();
        if !ok {
          break;
        }
        var content, left := ReadContent(size, cut);
        PrependTwice(created, File(prefix, name, content), Extract(input, 0, budget));
        created := created + [File(prefix, name, content)];
        if left != 0 {
          break;
        }
      }
    }
  }

  lemma RecordsUp(size: nat, n: nat)
    ensures 512 * n < size ==> Records(size) >= n + 1
    ensures 512 * n < size <= 512 * (n + 1) ==> Records(size) == n + 1
    ensures Records(0) == 0
  {
    assert PadBytes(0) == 0;
  }

  lemma PrependTwice(es: seq<Entry>, e: Entry, x: Extraction)
    ensures Prepend(es + [e], x) == Prepend(es, Prepend([e], x))
    ensures Extraction(1, es + [e]) == Prepend(es, Extraction(1, [e]))
  {
    assert es + [e] + x.created == es + ([e] + x.created);
  }

  // Writes the entries one by one and closes the archive. It stops at the first error.
  method Pack(es: seq<Entry>, cut: nat -> nat, capacity: nat) returns (archive: seq<u8>, status: int)
    requires AllWritable(es)
    ensures archive == Taken(Archive(es), capacity) && status == if |Archive(es)| <= capacity then 0 else -1
  {
    hide Stored, Fill, Taken, RecordBytes, RecordStatus;
    var w := new Writer(capacity);
    for k := 0 to |es|
      invariant w.Valid() && fresh(w) && fresh(w.buffer) && fresh(w.prefix) && w.capacity == capacity
      invariant w.output == StoredAll(es[..k])
    {
      var e := es[k];
      var _ := w.SetPrefix(e.prefix);
      var content := if e.File? then e.content else [];
      StoredBytes(e, |w.output|, capacity);
      ArchiveFrom(es, k);
      TakenMore(StoredAll(es[..k + 1]), StoredAll(es[k + 1..]) + Fill(0, 2 * RECORD_SIZE), capacity);
      var r := w.WriteRecord(e.name, if e.File? then |content| else -1, content, false, cut);
      if r < 0 {
        return w.output, -1;
      }
    }
    assert es[..|es|] == es;
    status := w.FinaliseOutput();
    archive := w.output;
  }

  lemma ArchiveFrom(es: seq<Entry>, k: nat)
    requires AllWritable(es) && k < |es|
    ensures StoredAll(es[..k + 1]) == StoredAll(es[..k]) + Stored(es[k])
    ensures Archive(es) == StoredAll(es[..k + 1]) + (StoredAll(es[k + 1..]) + Fill(0, 2 * RECORD_SIZE))
  {
    hide Stored, Fill;
    StoredAllStep(es, k);
    StoredAllConcat(es[..k + 1], es[k + 1..]);
    assert es[..k + 1] + es[k + 1..] == es;
  }

  lemma StoredAllStep(es: seq<Entry>, k: nat)
    requires AllWritable(es) && k < |es|
    ensures StoredAll(es[..k + 1]) == StoredAll(es[..k]) + Stored(es[k])
  {
    hide Stored;
    StoredAllConcat(es[..k], [es[k]]);
    assert es[..k + 1] == es[..k] + [es[k]];
    assert StoredAll([es[k]]) == Stored(es[k]);
  }

  lemma {:induction false} StoredAllConcat(x: seq<Entry>, y: seq<Entry>)
    requires AllWritable(x) && AllWritable(y)
    ensures AllWritable(x + y) && StoredAll(x + y) == StoredAll(x) + StoredAll(y)
  {
    hide Stored;
    if x == [] {
      assert x + y == y;
    } else {
      StoredAllConcat(x[1..], y);
      assert (x + y)[1..] == x[1..] + y;
    }
  }

  // Packing and unpacking, with every way of cutting both inputs into reads, and with errors at any point: the exit
  // status tells whether all went well, and then the entries are there, up to names that fill their field.
  method PackAndUnpack(es: seq<Entry>, cut: nat -> nat, capacity: nat, cut': nat -> nat, budget: nat)
    returns (created: seq<Entry>, status: int)
    requires AllWritable(es)
    ensures status == if |Archive(es)| <= capacity && Costs(es) <= budget then 0 else 1
    ensures status == 0 ==> created == SeenAll(es)
    ensures status == 0 ==> (created == es <==> forall i :: 0 <= i < |es| ==> |es[i].name| <= 99)
  {
    hide Extract, Archive, Costs;
    var archive, _ := Pack(es, cut, capacity);
    var reader := new Reader(archive, budget);
    status := reader.Run(cut');
    created := reader.created;
    ExtractArchive(es, archive, budget);
    if Costs(es) <= budget {
      RoundTrip(es, budget);
    }
  }
}
