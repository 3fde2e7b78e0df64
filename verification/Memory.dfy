/** `memmove` and `memset` of hc/core/hc/compilerRt/mem.c: one memory in which source and destination may overlap in any
    way, copied in wide chunks with overlapping windows at the end. Pointers are indices into the memory. */
module Memory {
  import opened Words

  // m with the bytes t written at `at`.
  function Splice(m: seq<u8>, at: nat, t: seq<u8>): (r: seq<u8>)
    requires at + |t| <= |m|
    ensures |r| == |m|
  {
    m[..at] + t + m[at + |t|..]
  }

  lemma SpliceParts(m: seq<u8>, at: nat, t: seq<u8>)
    requires at + |t| <= |m|
    ensures Splice(m, at, t)[..at] == m[..at]
    ensures Splice(m, at, t)[at..at + |t|] == t
    ensures Splice(m, at, t)[at + |t|..] == m[at + |t|..]
  {
  }

  lemma SpliceNothing(m: seq<u8>, at: nat, t: seq<u8>)
    requires at <= |m| && t == []
    ensures Splice(m, at, t) == m
  {
  }

  // Bytes outside the written range.
  lemma SpliceOutside(m: seq<u8>, at: nat, t: seq<u8>, lo: nat, hi: nat)
    requires at + |t| <= |m| && lo <= hi <= |m| && (hi <= at || at + |t| <= lo)
    ensures Splice(m, at, t)[lo..hi] == m[lo..hi]
  {
  }

  lemma SpliceAt(m: seq<u8>, at: nat, t: seq<u8>, i: nat)
    requires at + |t| <= |m| && i < |m|
    ensures Splice(m, at, t)[i] == if at <= i < at + |t| then t[i - at] else m[i]
  {
  }

  // Writing two windows of a string that cover it together is writing the string.
  lemma SpliceWindows(m: seq<u8>, at: nat, t: seq<u8>, k: nat)
    requires at + |t| <= |m| && k <= |t| <= 2 * k
    ensures Splice(Splice(m, at, t[..k]), at + |t| - k, t[|t| - k..]) == Splice(m, at, t)
  {
  }

  // Adjacent writes.
  lemma SpliceAppend(m: seq<u8>, at: nat, t: seq<u8>, u: seq<u8>)
    requires at + |t| + |u| <= |m|
    ensures Splice(Splice(m, at, t), at + |t|, u) == Splice(m, at, t + u)
    ensures Splice(Splice(m, at + |t|, u), at, t) == Splice(m, at, t + u)
  {
  }

  // A fixed-size `memcpy` out of a temporary.
  method Store(mem: array<u8>, at: nat, t: seq<u8>)
    requires at + |t| <= mem.Length
    modifies mem
    ensures mem[..] == Splice(old(mem[..]), at, t)
  {
    for i := 0 to |t|
      invariant forall k :: 0 <= k < mem.Length ==> mem[k] == if at <= k < at + i then t[k - at] else old(mem[k])
    {
      mem[at + i] := t[i];
    }
    assert mem[..] == Splice(old(mem[..]), at, t);
  }

  lemma Windows(m: seq<u8>, s: nat, n: nat, k: nat)
    requires k <= n && s + n <= |m|
    ensures m[s..s + n][..k] == m[s..s + k] && m[s..s + n][n - k..] == m[s + n - k..s + n]
  {
  }

  // Two windows of k bytes, both read before either is written.
  method MoveWindows(mem: array<u8>, d: nat, s: nat, n: nat, k: nat)
    requires d + n <= mem.Length && s + n <= mem.Length && k <= n <= 2 * k
    modifies mem
    ensures mem[..] == Splice(old(mem[..]), d, old(mem[s..s + n]))
  {
    hide Splice;
    ghost var m, t := mem[..], mem[s..s + n];
    var temp1, temp2 := mem[s..s + k], mem[s + n - k..s + n];
    Windows(m, s, n, k);
    assert mem[s..s + n] == m[s..s + n] && temp1 == m[s..s + k] && temp2 == m[s + n - k..s + n];
    Store(mem, d, temp1);
    Store(mem, d + n - k, temp2);
    SpliceWindows(m, d, t, k);
  }

  // Fewer than 16 bytes: lines 48-67.
  method MoveTail(mem: array<u8>, d: nat, s: nat, n: nat)
    requires d + n <= mem.Length && s + n <= mem.Length && n < 16
    modifies mem
    ensures mem[..] == Splice(old(mem[..]), d, old(mem[s..s + n]))
  {
    if n == 0 {
      SpliceNothing(mem[..], d, mem[s..s]);
      return;
    }
    if n >= 8 {
      MoveWindows(mem, d, s, n, 8);
    } else if n >= 4 {
      MoveWindows(mem, d, s, n, 4);
    } else if n >= 2 {
      MoveWindows(mem, d, s, n, 2);
    } else {
      Store(mem, d, mem[s..s + 1]);
    }
  }

  // The next chunk upwards is still as it was, and joins those already written.
  lemma ChunkUp(m: seq<u8>, d: nat, s: nat, i: nat)
    requires d < s && s + i + 16 <= |m|
    ensures var w := Splice(m, d, m[s..s + i]);
            Splice(w, d + i, w[s + i..s + i + 16]) == Splice(m, d, m[s..s + (i + 16)])
  {
    hide Splice;
    SpliceOutside(m, d, m[s..s + i], s + i, s + i + 16);
    SpliceAppend(m, d, m[s..s + i], m[s + i..s + i + 16]);
    assert m[s..s + i] + m[s + i..s + i + 16] == m[s..s + (i + 16)];
  }

  // The same downwards.
  lemma ChunkDown(m: seq<u8>, d: nat, s: nat, n: nat, left: nat)
    requires s <= d && d + n <= |m| && left + 16 <= n
    ensures var w := Splice(m, d + (left + 16), m[s + (left + 16)..s + n]);
            Splice(w, d + left, w[s + left..s + left + 16]) == Splice(m, d + left, m[s + left..s + n])
  {
    hide Splice;
    SpliceOutside(m, d + (left + 16), m[s + (left + 16)..s + n], s + left, s + left + 16);
    SpliceAppend(m, d + left, m[s + left..s + left + 16], m[s + (left + 16)..s + n]);
    assert m[s + left..s + left + 16] + m[s + (left + 16)..s + n] == m[s + left..s + n];
  }

  // Lines 30-36: upwards in chunks of 16, safe because the source lies above the destination.
  method MoveUp(mem: array<u8>, d: nat, s: nat, iEnd: nat)
    requires d + iEnd <= mem.Length && s + iEnd <= mem.Length && d < s && 16 <= iEnd && iEnd % 16 == 0
    modifies mem
    ensures mem[..] == Splice(old(mem[..]), d, old(mem[s..s + iEnd]))
  {
    hide Splice;
    ghost var m := mem[..];
    SpliceNothing(m, d, m[s..s]);
    var i := 0;
    while true
      invariant 0 <= i < iEnd && i % 16 == 0
      invariant mem[..] == Splice(m, d, m[s..s + i])
      decreases iEnd - i
    {
      ChunkUp(m, d, s, i);
      var temp := mem[..][s + i..s + i + 16];
      Store(mem, d + i, temp);
      i := i + 16;
      if i >= iEnd {
        break;
      }
    }
  }

  // Lines 41-45: downwards in chunks of 16, for a destination at or above the source. Returns what is left below.
  method MoveDown(mem: array<u8>, d: nat, s: nat, n: nat) returns (left: nat)
    requires d + n <= mem.Length && s + n <= mem.Length && s <= d && 16 <= n
    modifies mem
    ensures left == n % 16
    ensures mem[..] == Splice(old(mem[..]), d + left, old(mem[s + left..s + n]))
  {
    hide Splice;
    ghost var m := mem[..];
    SpliceNothing(m, d + n, m[s + n..s + n]);
    left := n;
    while true
      invariant 16 <= left <= n && left % 16 == n % 16
      invariant mem[..] == Splice(m, d + left, m[s + left..s + n])
      decreases left
    {
      left := left - 16;
      ChunkDown(m, d, s, n, left);
      var temp := mem[..][s + left..s + left + 16];
      Store(mem, d + left, temp);
      if left < 16 {
        break;
      }
    }
  }

  // Whole chunks first and the rest afterwards.
  lemma ChunksThenTail(m: seq<u8>, d: nat, s: nat, n: nat, k: nat)
    requires d + n <= |m| && s + n <= |m| && k <= n
    ensures d < s ==> Splice(m, d, m[s..s + k])[s + k..s + n] == m[s + k..s + n]
    ensures Splice(Splice(m, d, m[s..s + k]), d + k, m[s + k..s + n]) == Splice(m, d, m[s..s + n])
    ensures s <= d ==> Splice(m, d + k, m[s + k..s + n])[s..s + k] == m[s..s + k]
    ensures Splice(Splice(m, d + k, m[s + k..s + n]), d, m[s..s + k]) == Splice(m, d, m[s..s + n])
  {
    hide Splice;
    if d < s {
      SpliceOutside(m, d, m[s..s + k], s + k, s + n);
    } else {
      SpliceOutside(m, d + k, m[s + k..s + n], s, s + k);
    }
    SpliceAppend(m, d, m[s..s + k], m[s + k..s + n]);
    assert m[s..s + k] + m[s + k..s + n] == m[s..s + n];
  }

  // The destination receives the original source and nothing else changes, for every length and every overlap.
  method Memmove(mem: array<u8>, dest: nat, src: nat, size: nat)
    requires dest + size <= mem.Length && src + size <= mem.Length
    modifies mem
    ensures mem[dest..dest + size] == old(mem[src..src + size])
    ensures mem[..dest] == old(mem[..dest]) && mem[dest + size..] == old(mem[dest + size..])
  {
    hide Splice;
    ghost var m := mem[..];
    var d, s, n := dest, src, size;
    if n >= 16 {
      if d < s {
        var iEnd := n - n % 16;
        ChunksThenTail(m, d, s, n, iEnd);
        MoveUp(mem, d, s, iEnd);
        n := n % 16;
        d := d + iEnd;
        s := s + iEnd;
        assert mem[s..s + n] == mem[..][s..s + n];
      } else {
        ChunksThenTail(m, d, s, n, n % 16);
        n := MoveDown(mem, d, s, n);
        assert mem[s..s + n] == mem[..][s..s + n];
      }
    }
    MoveTail(mem, d, s, n);
    Landed(mem, m, dest, src, size);
  }

  lemma Landed(mem: array<u8>, m: seq<u8>, d: nat, s: nat, n: nat)
    requires |m| == mem.Length && d + n <= |m| && s + n <= |m| && mem[..] == Splice(m, d, m[s..s + n])
    ensures mem[d..d + n] == m[s..s + n] && mem[..d] == m[..d] && mem[d + n..] == m[d + n..]
  {
    hide Splice;
    SpliceParts(m, d, m[s..s + n]);
    assert mem[d..d + n] == mem[..][d..d + n];
    assert mem[..d] == mem[..][..d] && mem[d + n..] == mem[..][d + n..];
  }

  // `n` copies of a byte.
  function Fill(c: u8, n: nat): (t: seq<u8>)
    ensures |t| == n
  {
    seq(n, _ => c)
  }

  method SetWindows(mem: array<u8>, d: nat, n: nat, c: u8, k: nat)
    requires d + n <= mem.Length && k <= n <= 2 * k
    modifies mem
    ensures mem[..] == Splice(old(mem[..]), d, Fill(c, n))
  {
    hide Splice;
    ghost var m := mem[..];
    Store(mem, d, Fill(c, k));
    Store(mem, d + n - k, Fill(c, k));
    assert Fill(c, n)[..k] == Fill(c, k) && Fill(c, n)[n - k..] == Fill(c, k);
    SpliceWindows(m, d, Fill(c, n), k);
  }

  method Memset(mem: array<u8>, dest: nat, c: u8, size: nat)
    requires dest + size <= mem.Length
    modifies mem
    ensures mem[dest..dest + size] == Fill(c, size) && forall i :: dest <= i < dest + size ==> mem[i] == c
    ensures mem[..dest] == old(mem[..dest]) && mem[dest + size..] == old(mem[dest + size..])
    ensures mem[..] == Splice(old(mem[..]), dest, Fill(c, size))
  {
    hide Splice, Fill;
    ghost var m := mem[..];
    SpliceNothing(m, dest + size, Fill(c, 0));
    var n := size;
    while n >= 16
      invariant 0 <= n <= size && mem[..] == Splice(m, dest + n, Fill(c, size - n))
    {
      n := n - 16;
      SetWindows(mem, dest + n, 16, c, 8);
      FillAppend(m, dest + n, c, 16, size - n - 16);
    }
    FillAppend(m, dest, c, n, size - n);
    if n == 0 {
      SpliceNothing(mem[..], dest, Fill(c, 0));
    } else if n >= 8 {
      SetWindows(mem, dest, n, c, 8);
    } else if n >= 4 {
      SetWindows(mem, dest, n, c, 4);
    } else if n >= 2 {
      SetWindows(mem, dest, n, c, 2);
    } else {
      Store(mem, dest, Fill(c, 1));
    }
    SpliceParts(m, dest, Fill(c, size));
    assert mem[dest..dest + size] == mem[..][dest..dest + size];
    assert mem[..dest] == mem[..][..dest] && mem[dest + size..] == mem[..][dest + size..];
    forall i | dest <= i < dest + size
      ensures mem[i] == c
    {
      assert mem[i] == mem[dest..dest + size][i - dest];
      FillAt(c, size, i - dest);
    }
  }

  lemma FillAt(c: u8, n: nat, i: nat)
    requires i < n
    ensures Fill(c, n)[i] == c
  {
  }

  lemma FillAppend(m: seq<u8>, at: nat, c: u8, k: nat, n: nat)
    requires at + k + n <= |m|
    ensures Splice(Splice(m, at + k, Fill(c, n)), at, Fill(c, k)) == Splice(m, at, Fill(c, k + n))
  {
    SpliceAppend(m, at, Fill(c, k), Fill(c, n));
    assert Fill(c, k) + Fill(c, n) == Fill(c, k + n);
  }

  // The buffers of the streaming hashes: bytes held back until they make a whole block.

  // Top up a partly filled block; returns how many bytes of the input that takes.
  method TopUp(buffer: array<u8>, held: nat, input: seq<u8>) returns (numToRead: nat)
    requires held < buffer.Length
    modifies buffer
    ensures numToRead <= |input| && held + numToRead <= buffer.Length
    ensures buffer[..held + numToRead] == old(buffer[..held]) + input[..numToRead]
    ensures held + numToRead < buffer.Length ==> numToRead == |input|
  {
    hide Splice;
    numToRead := buffer.Length - held;
    if numToRead > |input| {
      numToRead := |input|;
    }
    SpliceParts(buffer[..], held, input[..numToRead]);
    Store(buffer, held, input[..numToRead]);
    assert buffer[..held + numToRead] == buffer[..][..held] + buffer[..][held..held + numToRead];
  }

  // Keep the last n bytes of the input.
  method KeepTail(buffer: array<u8>, input: seq<u8>, n: nat)
    requires n <= |input| && n <= buffer.Length
    modifies buffer
    ensures buffer[..n] == input[|input| - n..]
  {
    hide Splice;
    SpliceParts(buffer[..], 0, input[|input| - n..]);
    Store(buffer, 0, input[|input| - n..]);
    assert buffer[..n] == buffer[..][0..n];
  }
}
