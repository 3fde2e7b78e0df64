/** The binary packet layer of the SSH client, hc/examples/ssh/client.c (section 6 of RFC 4253, with the
    chacha20-poly1305@openssh.com cipher): packets are sealed in place by the sender and read back out of a
    double-mapped ring buffer by the receiver, whatever pieces the stream arrives in. */
module SshPacket {
  import opened Words
  import P = Poly1305

  const MAX_PACKET: nat := 35000

  // `chacha20_block` for one key: 64 bytes of key stream for a nonce (the sequence number) and a block counter.
  type Cipher = f: (nat, nat) -> seq<u8> | forall s, c :: |f(s, c)| == 64
    witness (s: nat, c: nat) => seq(64, _ => 0)

  // The keys of one direction.
  datatype Crypto = NoCrypto | ChaCha(length: Cipher, body: Cipher)

  function MacSize(c: Crypto): nat {
    if c.NoCrypto? then 0 else 16
  }

  function XorByte(x: u8, y: u8): u8 {
    XorBound(x, y, 8);
    assert Pow2(8) == 0x100;
    Xor(x, y)
  }

  lemma XorByteTwice(x: u8, y: u8)
    ensures XorByte(XorByte(x, y), y) == x
  {
    XorCommutes(x, y);
    XorCommutes(XorByte(x, y), y);
    XorCancels(y, x);
  }

  // The four length bytes and the rest of a packet under their key streams; both directions are the same operation.

  function SizeBytes(c: Crypto, n: nat, b: seq<u8>): (r: seq<u8>)
    requires |b| == 4
    ensures |r| == 4
  {
    if c.NoCrypto? then b else seq(4, j requires 0 <= j < 4 => XorByte(b[j], c.length(n, 0)[j]))
  }

  function BodyBytes(c: Crypto, n: nat, b: seq<u8>): (r: seq<u8>)
    ensures |r| == |b|
  {
    if c.NoCrypto? then b
    else seq(|b|, j requires 0 <= j < |b| => XorByte(b[j], KeyByte(c, n, j)))
  }

  // Byte j of the key stream that starts at block 1.
  function KeyByte(c: Crypto, n: nat, j: nat): u8
    requires c.ChaCha?
  {
    c.body(n, 1 + j / 64)[j % 64]
  }

  lemma KeyByteAt(c: Crypto, n: nat, block: nat, i: nat)
    requires c.ChaCha? && i < 64
    ensures KeyByte(c, n, 64 * block + i) == c.body(n, 1 + block)[i]
  {
    assert (64 * block + i) / 64 == block && (64 * block + i) % 64 == i;
  }

  lemma SizeBytesTwice(c: Crypto, n: nat, b: seq<u8>)
    requires |b| == 4
    ensures SizeBytes(c, n, SizeBytes(c, n, b)) == b
  {
    if c.ChaCha? {
      forall j | 0 <= j < 4 {
        XorByteTwice(b[j], c.length(n, 0)[j]);
      }
    }
  }

  lemma BodyBytesTwice(c: Crypto, n: nat, b: seq<u8>)
    ensures BodyBytes(c, n, BodyBytes(c, n, b)) == b
  {
    if c.ChaCha? {
      forall j | 0 <= j < |b| {
        XorByteTwice(b[j], KeyByte(c, n, j));
      }
      assert forall j :: 0 <= j < |b| ==> BodyBytes(c, n, BodyBytes(c, n, b))[j] == b[j];
    }
  }

  // The tag that the Poly1305 code computes.
  function Tag(key: seq<u8>, data: seq<u8>): (t: seq<u8>)
    requires |key| == 32
    ensures |t| == 16
  {
    LeBytes((P.FinalNumber(key, data) + LeNat(key[16..])) % TWO_128, 16)
  }

  function PacketTag(c: Crypto, n: nat, data: seq<u8>): (t: seq<u8>)
    ensures |t| == MacSize(c)
  {
    if c.NoCrypto? then [] else Tag(c.body(n, 0)[..32], data)
  }

  // A packet in the clear, and on the wire.

  function Packet(payload: seq<u8>, padding: seq<u8>): (p: seq<u8>)
    ensures |p| == 5 + |payload| + |padding|
  {
    BigEndian(1 + |payload| + |padding|, 4) + ([|padding| % 0x100] + payload + padding)
  }

  function Seal(c: Crypto, n: nat, p: seq<u8>): (w: seq<u8>)
    requires |p| >= 4
    ensures |w| == |p| + MacSize(c)
  {
    var e := SizeBytes(c, n, p[..4]) + BodyBytes(c, n, p[4..]);
    e + PacketTag(c, n, e)
  }

  datatype Sent = Sent(payload: seq<u8>, padding: seq<u8>)

  // What `client_sendMessage` may be given: a nonempty payload, with the padding that the macro asks for, in a packet
  // that the receiver accepts.
  ghost predicate Sendable(c: Crypto, m: Sent) {
    |m.payload| > 0 && |m.padding| == PaddingSize(|m.payload|) &&
    5 + |m.payload| + |m.padding| + MacSize(c) <= MAX_PACKET
  }

  function PaddingSize(payloadSize: nat): (r: nat)
    ensures 4 <= r < 68 && (5 + payloadSize + r) % 64 == 0
  {
    var a := (payloadSize + 9) % 64;
    var r := 4 + (if a == 0 then 0 else 64 - a);
    assert 5 + payloadSize + r == (payloadSize + 9) / 64 * 64 + (if a == 0 then 0 else 64);
    r
  }

  function Wire(c: Crypto, n: nat, m: Sent): (w: seq<u8>)
    ensures |w| == 5 + |m.payload| + |m.padding| + MacSize(c)
  {
    Seal(c, n, Packet(m.payload, m.padding))
  }

  // A message and the keys it is sent with; the keys may change from one message to the next.
  datatype Keyed = Keyed(crypto: Crypto, sent: Sent)

  // Packet after packet. Sequence numbers wrap at 2^32.
  function WireAll(n: nat, ks: seq<Keyed>): seq<u8>
    decreases |ks|
  {
    if |ks| == 0 then [] else Wire(ks[0].crypto, n, ks[0].sent) + WireAll((n + 1) % 0x1_0000_0000, ks[1..])
  }

  // What the receiver makes of the bytes at the front of the stream.

  datatype Front = Incomplete | Failed(code: int) | Message(payload: seq<u8>, size: nat)

  function DecodedSize(c: Crypto, n: nat, w: seq<u8>): nat
    requires |w| >= 4
  {
    BeNat(SizeBytes(c, n, w[..4]))
  }

  ghost predicate Acceptable(c: Crypto, size: nat) {
    size + 4 + MacSize(c) <= MAX_PACKET && size % 4 == 0
  }

  function FrontOf(c: Crypto, n: nat, w: seq<u8>): Front {
    if |w| < 4 then Incomplete
    else
      var size := DecodedSize(c, n, w);
      if size + 4 + MacSize(c) > MAX_PACKET then Failed(-1)
      else if size % 4 != 0 then Failed(-2)
      else if |w| < 4 + size + MacSize(c) then Incomplete
      else if PacketTag(c, n, w[..4 + size]) != w[4 + size..4 + size + MacSize(c)] then Failed(-3)
      else
        var body := BodyBytes(c, n, w[4..4 + size]);
        if size == 0 || size <= body[0] as int + 1 then Failed(-4)
        else Message(body[1..size - body[0]], size)
  }

  // Packet k of a stream is sealed with the k-th number after the first.
  lemma {:induction false} PacketAt(number: nat, ks: seq<Keyed>, k: nat)
    requires number < 0x1_0000_0000 && k < |ks|
    ensures WireAll(number, ks) ==
            WireAll(number, ks[..k]) + Wire(ks[k].crypto, (number + k) % 0x1_0000_0000, ks[k].sent) +
            WireAll((number + k + 1) % 0x1_0000_0000, ks[k + 1..])
    decreases k
  {
    hide Wire, WireAll;
    var next := (number + 1) % 0x1_0000_0000;
    var x := Wire(ks[k].crypto, (number + k) % 0x1_0000_0000, ks[k].sent);
    var y := WireAll((number + k + 1) % 0x1_0000_0000, ks[k + 1..]);
    WireAllFront(number, ks);
    if k == 0 {
      assert ks[..0] == [];
      WireAllFront(number, []);
      assert [] + x + y == x + y;
    } else {
      PacketAt(next, ks[1..], k - 1);
      NumbersAdd(number, k);
      assert ks[1..][..k - 1] == ks[..k][1..] && ks[1..][k..] == ks[k + 1..] && ks[..k][0] == ks[0];
      WireAllFront(number, ks[..k]);
      Associate(Wire(ks[0].crypto, number, ks[0].sent), WireAll(next, ks[..k][1..]), x, y);
    }
  }

  lemma WireAllFront(n: nat, ks: seq<Keyed>)
    ensures WireAll(n, ks) ==
            if |ks| == 0 then [] else Wire(ks[0].crypto, n, ks[0].sent) + WireAll((n + 1) % 0x1_0000_0000, ks[1..])
  {
    hide Wire;
  }

  lemma Associate(a: seq<u8>, b: seq<u8>, x: seq<u8>, y: seq<u8>)
    ensures a + (b + x + y) == (a + b) + x + y
  {
  }

  lemma NumbersAdd(number: nat, k: nat)
    requires k > 0
    ensures ((number + 1) % 0x1_0000_0000 + (k - 1)) % 0x1_0000_0000 == (number + k) % 0x1_0000_0000
    ensures ((number + 1) % 0x1_0000_0000 + (k - 1) + 1) % 0x1_0000_0000 == (number + k + 1) % 0x1_0000_0000
  {
    var q, r := (number + 1) / 0x1_0000_0000, (number + 1) % 0x1_0000_0000;
    ModAddMultiple(r + (k - 1), q, 0x1_0000_0000);
    ModAddMultiple(r + (k - 1) + 1, q, 0x1_0000_0000);
  }

  // No two of 2^32 packets in a row share a number, and so a key stream and a Poly1305 key.
  lemma NumbersDiffer(number: nat, j: nat, k: nat)
    requires j < k < j + 0x1_0000_0000
    ensures (number + j) % 0x1_0000_0000 != (number + k) % 0x1_0000_0000
  {
  }

  // The bytes of a packet before it is sealed: a length in four bytes, most significant first, that counts what
  // follows it, the length of the padding, the payload, the padding.
  lemma PacketBytes(payload: seq<u8>, padding: seq<u8>)
    requires 1 + |payload| + |padding| < 0x1_0000_0000 && |padding| < 0x100
    ensures var p := Packet(payload, padding);
            p[0] as int * 0x1000000 + p[1] as int * 0x10000 + p[2] as int * 0x100 + p[3] == 1 + |payload| + |padding| &&
            p[4] == |padding| && p[5..5 + |payload|] == payload && p[5 + |payload|..] == padding
  {
    hide BigEndian, BeNat;
    var head := BigEndian(1 + |payload| + |padding|, 4);
    SmallPow256();
    BeNatBytes(1 + |payload| + |padding|, 4);
    BeNatFour(head);
  }

  // The bytes on the wire under ChaCha keys: the length under block 0 of its own key, the rest under the blocks from
  // 1 on of the other, and a tag of both under the first 32 bytes of block 0.
  lemma WireBytes(c: Crypto, n: nat, m: Sent, j: nat)
    requires c.ChaCha? && j < 5 + |m.payload| + |m.padding|
    ensures var w, p := Wire(c, n, m), Packet(m.payload, m.padding);
            w[j] == (if j < 4 then Xor(p[j], c.length(n, 0)[j])
                     else Xor(p[j], c.body(n, 1 + (j - 4) / 64)[(j - 4) % 64])) &&
            |w| == |p| + 16 &&
            LeNat(w[|p|..]) == (P.FinalNumber(c.body(n, 0)[..32], w[..|p|]) + LeNat(c.body(n, 0)[16..32]))
                               % 0x1_0000_0000_0000_0000_0000_0000_0000_0000
  {
    hide Packet, Xor, P.FinalNumber, LeNat, LeBytes, Pow256;
    var p := Packet(m.payload, m.padding);
    var e := SizeBytes(c, n, p[..4]) + BodyBytes(c, n, p[4..]);
    var key := c.body(n, 0)[..32];
    assert Wire(c, n, m)[..|p|] == e && Wire(c, n, m)[|p|..] == Tag(key, e);
    var number := P.FinalNumber(key, e) + LeNat(key[16..]);
    assert key[16..] == c.body(n, 0)[16..32];
    SixteenPower();
    LeNatBytes(number % TWO_128, 16);
  }

  lemma SixteenPower()
    ensures Pow256(16) == TWO_128
  {
    Pow256Offsets();
  }

  // What the receiver makes of the bytes at the front, in numbers.
  lemma FrontInNumbers(c: Crypto, n: nat, w: seq<u8>)
    ensures |w| < 4 ==> FrontOf(c, n, w) == Incomplete
    ensures |w| >= 4 ==>
              var b := seq(4, j requires 0 <= j < 4 => if c.NoCrypto? then w[j] else XorByte(w[j], c.length(n, 0)[j]));
              var size := b[0] as int * 0x1000000 + b[1] as int * 0x10000 + b[2] as int * 0x100 + b[3];
              (size > (if c.NoCrypto? then 34996 else 34980) ==> FrontOf(c, n, w) == Failed(-1)) &&
              (size <= (if c.NoCrypto? then 34996 else 34980) ==>
                 (size % 4 != 0 ==> FrontOf(c, n, w) == Failed(-2)) &&
                 (size % 4 == 0 && |w| < 4 + size + (if c.NoCrypto? then 0 else 16) ==> FrontOf(c, n, w) == Incomplete))
  {
    hide BodyBytes, PacketTag, BeNat, XorByte;
    if |w| >= 4 {
      var b := seq(4, j requires 0 <= j < 4 => if c.NoCrypto? then w[j] else XorByte(w[j], c.length(n, 0)[j]));
      assert SizeBytes(c, n, w[..4]) == b;
      BeNatFour(b);
    }
  }

  // The length in front of a packet.
  lemma WireSize(c: Crypto, n: nat, m: Sent)
    requires Sendable(c, m)
    ensures SizeBytes(c, n, Wire(c, n, m)[..4]) == BigEndian(1 + |m.payload| + |m.padding|, 4)
    ensures DecodedSize(c, n, Wire(c, n, m)) == 1 + |m.payload| + |m.padding|
  {
    hide BodyBytes, SizeBytes, PacketTag, BeNat, BigEndian, Pow256;
    var p, size := Packet(m.payload, m.padding), 1 + |m.payload| + |m.padding|;
    assert Wire(c, n, m)[..4] == SizeBytes(c, n, p[..4]);
    SizeBytesTwice(c, n, p[..4]);
    assert p[..4] == BigEndian(size, 4);
    SmallPow256();
    BeNatBytes(size, 4);
  }

  lemma SmallPow256()
    ensures Pow256(4) == TWO_32
  {
  }

  lemma SealLayout(c: Crypto, n: nat, p: seq<u8>, rest: seq<u8>)
    requires |p| >= 4
    ensures var w := Seal(c, n, p) + rest;
            var e := w[..|p|];
            |w| >= |p| + MacSize(c) && w[..4] == Seal(c, n, p)[..4] && w[4..|p|] == BodyBytes(c, n, p[4..]) &&
            w[|p|..|p| + MacSize(c)] == PacketTag(c, n, e)
  {
    hide BodyBytes, SizeBytes, PacketTag;
    var e := SizeBytes(c, n, p[..4]) + BodyBytes(c, n, p[4..]);
    var w := Seal(c, n, p) + rest;
    assert w == e + (PacketTag(c, n, e) + rest);
    assert w[..|p|] == e;
  }

  // A complete packet at the front comes out as it went in, whatever follows it.
  lemma FrontOfWire(c: Crypto, n: nat, m: Sent, rest: seq<u8>)
    requires Sendable(c, m)
    ensures FrontOf(c, n, Wire(c, n, m) + rest) == Message(m.payload, 1 + |m.payload| + |m.padding|)
  {
    hide BodyBytes, DecodedSize, SizeBytes, PacketTag, BeNat, BigEndian, Seal, Packet, FrontOf;
    var p, size := Packet(m.payload, m.padding), 1 + |m.payload| + |m.padding|;
    var w := Wire(c, n, m) + rest;
    WireSize(c, n, m);
    SealLayout(c, n, p, rest);
    BodyBytesTwice(c, n, p[4..]);
    PacketBody(m.payload, m.padding);
    DecodedAgain(c, n, w, Wire(c, n, m));
    MessageFront(c, n, w, size, p[4..]);
  }

  lemma DecodedAgain(c: Crypto, n: nat, w: seq<u8>, w': seq<u8>)
    requires 4 <= |w| && 4 <= |w'| && w[..4] == w'[..4]
    ensures DecodedSize(c, n, w) == DecodedSize(c, n, w')
  {
    hide SizeBytes, BeNat;
  }

  lemma MessageFront(c: Crypto, n: nat, w: seq<u8>, size: nat, body: seq<u8>)
    requires 4 + size + MacSize(c) <= |w| && DecodedSize(c, n, w) == size && Acceptable(c, size)
    requires PacketTag(c, n, w[..4 + size]) == w[4 + size..4 + size + MacSize(c)]
    requires BodyBytes(c, n, w[4..4 + size]) == body && size == |body| && size > 0 && size > body[0] as int + 1
    ensures FrontOf(c, n, w) == Message(body[1..size - body[0]], size)
  {
    hide BodyBytes, DecodedSize, PacketTag;
  }

  lemma PacketBody(payload: seq<u8>, padding: seq<u8>)
    requires |padding| < 0x100
    ensures var b := Packet(payload, padding)[4..]; b[0] == |padding| && b[1..1 + |payload|] == payload
  {
    hide BigEndian;
    assert Packet(payload, padding)[4..] == [|padding| % 0x100] + payload + padding;
  }

  // Part of a packet is never mistaken for anything else.
  lemma FrontOfPart(c: Crypto, n: nat, m: Sent, w: seq<u8>)
    requires Sendable(c, m) && w <= Wire(c, n, m) && |w| < |Wire(c, n, m)|
    ensures FrontOf(c, n, w) == Incomplete
  {
    hide BodyBytes, SizeBytes, PacketTag, BeNat, BigEndian, Wire;
    WireSize(c, n, m);
    if |w| >= 4 {
      assert w[..4] == Wire(c, n, m)[..4];
    }
  }

  // More bytes behind a complete packet do not change it.
  lemma FrontStable(c: Crypto, n: nat, w: seq<u8>, t: seq<u8>)
    ensures FrontOf(c, n, w).Message? ==> FrontOf(c, n, w + t) == FrontOf(c, n, w)
  {
    hide BodyBytes, SizeBytes, PacketTag, BeNat;
    if !FrontOf(c, n, w).Message? {
      return;
    }
    var size := DecodedSize(c, n, w);
    assert (w + t)[..4] == w[..4];
    assert (w + t)[..4 + size] == w[..4 + size];
    assert (w + t)[4..4 + size] == w[4..4 + size];
    assert (w + t)[4 + size..4 + size + MacSize(c)] == w[4 + size..4 + size + MacSize(c)];
  }

  // The stream with its first packet decrypted in place.
  function Opened(c: Crypto, n: nat, w: seq<u8>, size: nat): (r: seq<u8>)
    requires 4 + size <= |w|
    ensures |r| == |w|
  {
    w[..4] + BodyBytes(c, n, w[4..4 + size]) + w[4 + size..]
  }

  method ComputeTag(key: seq<u8>, data: seq<u8>) returns (tag: seq<u8>)
    requires |key| == 32
    ensures tag == Tag(key, data)
  {
    hide P.FinalNumber, LeNat, LeBytes, P.RfcTag;
    var out := P.Authenticate(key, [data]);
    assert Concat([data]) == data;
    tag := out[..];
    LeBytesNat(tag);
  }

  // What a peek leaves of the bytes at the front: a packet that turns out to hold no message stays decrypted.
  function AfterPeek(c: Crypto, n: nat, w: seq<u8>): seq<u8> {
    if |w| >= 4 && 4 + DecodedSize(c, n, w) <= |w| && FrontOf(c, n, w) == Failed(-4) then
      Opened(c, n, w, DecodedSize(c, n, w)) else w
  }

  // What `recvfrom` answers.
  datatype Received = Chunk(bytes: seq<u8>) | Error(number: nat)

  class Client {
    const ring: array<u8>
    var crypto: Crypto
    var bufferPos: nat
    var receivedSize: int
    // Size of the first packet once known, negated once it is decrypted.
    var nextSize: int
    var receiveSequenceNumber: nat

    // The unacknowledged bytes as they arrived, and the sequence number of the first packet.
    ghost var raw: seq<u8>
    ghost var frontNumber: nat

    // Index into the ring of the k-th unacknowledged byte.
    function Slot(k: nat): (i: nat)
      requires bufferPos < ring.Length && k < ring.Length
      reads this`bufferPos
      ensures i < ring.Length
    {
      if bufferPos + k < ring.Length then bufferPos + k else bufferPos + k - ring.Length
    }

    // The ring from the current position on, as the double mapping shows it.
    ghost function Rotated(): (w: seq<u8>)
      requires bufferPos < ring.Length
      reads this`bufferPos, ring
      ensures |w| == ring.Length
    {
      (ring[..] + ring[..])[bufferPos..bufferPos + ring.Length]
    }

    ghost function Window(): (w: seq<u8>)
      requires bufferPos < ring.Length && 0 <= receivedSize <= ring.Length
      reads this`bufferPos, this`receivedSize, ring
      ensures |w| == receivedSize
    {
      Rotated()[..receivedSize]
    }

    method Put(k: nat, x: u8)
      requires bufferPos < ring.Length && k < ring.Length
      modifies ring
      ensures Rotated() == old(Rotated())[k := x]
    {
      ring[Slot(k)] := x;
    }

    method Get(k: nat) returns (x: u8)
      requires bufferPos < ring.Length && k < ring.Length
      ensures x == Rotated()[k]
    {
      x := ring[Slot(k)];
    }

    // Position in range and aligned, size within limits.
    ghost predicate Valid()
      reads this`bufferPos, this`receivedSize, this`nextSize, this`raw, this`crypto
    {
      MAX_PACKET <= ring.Length && ring.Length % 4 == 0 && bufferPos < ring.Length && bufferPos % 4 == 0 &&
      0 <= receivedSize <= ring.Length && |raw| == receivedSize && nextSize % 4 == 0 &&
      4 + nextSize + MacSize(crypto) <= MAX_PACKET && 4 - nextSize + MacSize(crypto) <= MAX_PACKET &&
      (nextSize < 0 ==> 4 - nextSize + MacSize(crypto) <= receivedSize)
    }

    // How the ring and the bookkeeping relate to the bytes that arrived.
    ghost predicate Tracking()
      requires Valid()
      reads this, ring
    {
      frontNumber < TWO_32 &&
      (nextSize >= 0 ==> Window() == raw && receiveSequenceNumber == frontNumber) &&
      (nextSize > 0 ==> |raw| >= 4 && DecodedSize(crypto, frontNumber, raw) == nextSize) &&
      (nextSize < 0 ==>
         FrontOf(crypto, frontNumber, raw).Message? && FrontOf(crypto, frontNumber, raw).size == -nextSize &&
         Window() == Opened(crypto, frontNumber, raw, -nextSize) &&
           receiveSequenceNumber == (frontNumber + 1) % 0x1_0000_0000)
    }

    // The result of a peek for what is at the front of the stream.
    ghost predicate Reports(front: Front, r: int)
      requires Valid()
      reads this, ring
    {
      match front
      case Incomplete => r == 0
      case Failed(code) => r == code
      case Message(payload, size) =>
        r == |payload| && r > 0 && nextSize + size == 0 && 5 + r <= receivedSize && Window()[5..5 + r] == payload
    }

    // `client_init` and `client_connect` leave an empty ring; the size is a multiple of the page size.
    constructor (size: nat, crypto: Crypto, number: nat)
      requires MAX_PACKET <= size && size % 4 == 0 && number < TWO_32
      ensures Valid() && Tracking() && raw == [] && frontNumber == number && nextSize == 0
      ensures this.crypto == crypto && fresh(ring) && ring.Length == size
    {
      ring := new u8[size];
      this.crypto := crypto;
      bufferPos, receivedSize, nextSize := 0, 0, 0;
      receiveSequenceNumber := number;
      raw := [];
      frontNumber := number;
    }

    // Bytes from offset k of the unacknowledged part.
    method Bytes(k: nat, n: nat) returns (b: seq<u8>)
      requires bufferPos < ring.Length && 0 <= receivedSize <= ring.Length && k + n <= receivedSize
      ensures b == Window()[k..k + n]
    {
      hide Rotated;
      b := [];
      for i := 0 to n
        invariant b == Rotated()[k..k + i]
      {
        var x := Get(k + i);
        b := b + [x];
      }
      assert Window()[k..k + n] == Rotated()[k..k + n];
    }

    // What `recvfrom` puts behind the bytes already there.
    method Write(chunk: seq<u8>)
      requires bufferPos < ring.Length && 0 <= receivedSize && receivedSize + |chunk| <= ring.Length
      modifies ring
      ensures Rotated()[..receivedSize + |chunk|] == old(Window()) + chunk
    {
      hide Rotated;
      ghost var w := Window();
      for i := 0 to |chunk|
        invariant Rotated()[..receivedSize + i] == w + chunk[..i]
      {
        ghost var before := Rotated();
        Put(receivedSize + i, chunk[i]);
        assert Rotated()[..receivedSize + (i + 1)] == before[..receivedSize + i] + [chunk[i]];
        assert w + chunk[..i + 1] == (w + chunk[..i]) + [chunk[i]];
      }
    }

    // A failed `recvfrom` returns the negated error number, which is added to the size like any other result; the
    // callers give up on the connection then.
    method Receive(input: Received) returns (numRead: int)
      requires Valid() && Tracking() && (input.Chunk? ==> |input.bytes| <= ring.Length - receivedSize)
      modifies this`receivedSize, this`raw, ring
      ensures receivedSize == old(receivedSize) + numRead
      ensures match input
              case Chunk(bytes) => Valid() && Tracking() && raw == old(raw) + bytes && numRead == |bytes|
              case Error(number) => raw == old(raw) && ring[..] == old(ring[..]) && numRead == 0 - number
    {
      hide FrontOf, Opened, DecodedSize, Rotated;
      match input {
        case Chunk(bytes) =>
          Arrived(crypto, frontNumber, raw, bytes);
          Write(bytes);
          raw := raw + bytes;
          numRead := |bytes|;
        case Error(number) =>
          numRead := 0 - number;
      }
      receivedSize := receivedSize + numRead;
    }

    // New keys from the next packet on, lines 536-555, when everything peeked is acknowledged. Bytes of that packet
    // may be in the ring already.
    method SwitchKeys(crypto: Crypto)
      requires Valid() && Tracking() && nextSize == 0
      modifies this`crypto
      ensures Valid() && Tracking() && this.crypto == crypto
    {
      this.crypto := crypto;
    }

    // The size of the message at the front, 0 if it is not complete, or a negative error. An error repeats itself,
    // except that a packet without a message has been decrypted: the next peek takes it as if it had arrived that
    // way.
    method Peek() returns (r: int)
      requires Valid() && Tracking()
      modifies this`nextSize, this`receiveSequenceNumber, this`raw, ring
      ensures Valid() && Tracking() && raw == AfterPeek(crypto, frontNumber, old(raw))
      ensures r > 0 ==> nextSize < 0 && 5 + r <= 4 - nextSize
      ensures r == 0 ==> receivedSize < MAX_PACKET
      ensures old(nextSize) < 0 ==> nextSize == old(nextSize) && ring[..] == old(ring[..])
      ensures Reports(FrontOf(crypto, frontNumber, old(raw)), r)
    {
      hide Rotated, BodyBytes, SizeBytes, PacketTag, BeNat;
      if nextSize < 0 {
        OpenedMessage(crypto, frontNumber, raw);
        var padding := Get(4);
        r := -nextSize - padding - 1;
        return;
      }
      var macSize := MacSize(crypto);
      if nextSize == 0 {
        if receivedSize < 4 {
          return 0;
        }
        var head := Bytes(0, 4);
        var size := BeNat(SizeBytes(crypto, receiveSequenceNumber, head));
        if size > MAX_PACKET - 4 - macSize {
          return -1;
        }
        if size % 4 != 0 {
          return -2;
        }
        nextSize := size;
      }
      if receivedSize < 4 + nextSize + macSize {
        return 0;
      }
      r := Open();
    }

    // Lines 110-157: check the tag of a complete packet, decrypt it and find the message.
    method Open() returns (r: int)
      requires Valid() && nextSize >= 0 && 4 + nextSize + MacSize(crypto) <= receivedSize
      requires Tracking() && DecodedSize(crypto, frontNumber, raw) == nextSize
      modifies this`nextSize, this`receiveSequenceNumber, this`raw, ring
      ensures Valid() && Tracking() && raw == AfterPeek(crypto, frontNumber, old(raw)) && r != 0
      ensures r > 0 ==> nextSize < 0 && 5 + r <= 4 - nextSize
      ensures receiveSequenceNumber == if r > 0 then (old(receiveSequenceNumber) + 1) % 0x1_0000_0000
                                       else old(receiveSequenceNumber)
      ensures Reports(FrontOf(crypto, frontNumber, old(raw)), r)
    {
      hide Rotated, BodyBytes, SizeBytes, PacketTag, BeNat, Opened, DecodedSize, FrontOf;
      var size := nextSize;
      ghost var w, n := Window(), receiveSequenceNumber;
      var good := Authenticated();
      var padding := Get(4);
      FrontCases(crypto, n, w, size, padding);
      if !good {
        return -3;
      }
      r := size - padding - 1;
      if r <= 0 {
        OpenedHead(crypto, n, w, size);
        raw := Window();
        return -4;
      }
      receiveSequenceNumber := (receiveSequenceNumber + 1) % 0x1_0000_0000;
      nextSize := -size;
    }

    // Lines 110-148: whether the tag is right, and if so the packet decrypted.
    method Authenticated() returns (good: bool)
      requires Valid() && nextSize >= 0 && 4 + nextSize + MacSize(crypto) <= receivedSize
      modifies ring
      ensures good <==> PacketTag(crypto, receiveSequenceNumber, old(Window())[..4 + nextSize])
                        == old(Window())[4 + nextSize..4 + nextSize + MacSize(crypto)]
      ensures Window() == if good then Opened(crypto, receiveSequenceNumber, old(Window()), nextSize) else old(Window())
    {
      hide Rotated, BodyBytes, SizeBytes, PacketTag, BeNat, Tag, Opened;
      var packetSize := 4 + nextSize;
      if crypto.NoCrypto? {
        OpenedClear(crypto, receiveSequenceNumber, Window(), nextSize);
        return true;
      }
      var data := Bytes(0, packetSize);
      var tag := ComputeTag(crypto.body(receiveSequenceNumber, 0)[..32], data);
      var mac := Bytes(packetSize, 16);
      PacketTagIs(crypto, receiveSequenceNumber, data);
      good := tag == mac;
      if good {
        DecryptBody(nextSize);
      }
    }

    // Move past the message that was peeked.
    method Ack()
      requires Valid() && nextSize < 0 && Tracking()
      modifies this`bufferPos, this`receivedSize, this`nextSize, this`raw, this`frontNumber
      ensures Valid() && Tracking() && nextSize == 0
      ensures raw == old(raw)[4 - old(nextSize) + MacSize(crypto)..] &&
              frontNumber == (old(frontNumber) + 1) % 0x1_0000_0000
    {
      hide FrontOf, Opened, DecodedSize;
      var totalSize := -nextSize + 4 + MacSize(crypto);
      Turned(ring[..], bufferPos, totalSize, receivedSize);
      OpenedRest(crypto, frontNumber, raw, -nextSize, totalSize);
      TurnedPosition(bufferPos, totalSize, ring.Length);
      bufferPos := (bufferPos + totalSize) % ring.Length;
      receivedSize := receivedSize - totalSize;
      nextSize := 0;
      raw := raw[totalSize..];
      frontNumber := (frontNumber + 1) % 0x1_0000_0000;
    }

    // Peek and acknowledge: one message taken off the stream, if it is complete.
    method NextMessage() returns (r: int, message: seq<u8>)
      requires Valid() && Tracking()
      modifies this`nextSize, this`receiveSequenceNumber, this`raw, this`bufferPos, this`receivedSize, this`frontNumber,
        ring
      ensures Valid() && Tracking()
      ensures r == 0 ==> receivedSize < MAX_PACKET
      ensures r > 0 ==> nextSize == 0
      ensures Taken(FrontOf(crypto, old(frontNumber), old(raw)), old(frontNumber), old(raw), r, message)
    {
      hide FrontOf, Rotated, DecodedSize, Opened;
      message := [];
      FrontSize(crypto, frontNumber, raw);
      FrontErrors(crypto, frontNumber, raw);
      r := Peek();
      if r > 0 {
        message := Bytes(5, r);
        Ack();
      }
    }

    // The outcome of `NextMessage` for the front of the stream: nothing, an error, or the message removed.
    ghost predicate Taken(front: Front, number: nat, before: seq<u8>, r: int, message: seq<u8>)
      reads this
    {
      match front
      case Incomplete => r == 0 && raw == before && frontNumber == number
      case Failed(code) => r == code && raw == AfterPeek(crypto, number, before) && frontNumber == number
      case Message(payload, size) =>
        r == |payload| && message == payload && 4 + size + MacSize(crypto) <= |before| &&
        raw == before[4 + size + MacSize(crypto)..] && frontNumber == (number + 1) % 0x1_0000_0000
    }

    // Lines 128-144: the packet is decrypted where it lies.
    method DecryptBody(size: nat)
      requires Valid() && nextSize >= 0 && 4 + size <= receivedSize && crypto.ChaCha?
      modifies ring
      ensures Window() == Opened(crypto, receiveSequenceNumber, old(Window()), size)
    {
      hide Rotated, Opened, XorByte, KeyByte;
      ghost var w, n := Rotated(), receiveSequenceNumber;
      OpenedNothing(crypto, n, w);
      var packetSize, offset, counter := 4 + size, 4, 0;
      while true
        invariant 4 <= offset <= packetSize && offset == 4 + 64 * counter
        invariant Rotated() == Opened(crypto, n, w, offset - 4)
        decreases packetSize - offset
      {
        counter := counter + 1;
        var stream := crypto.body(receiveSequenceNumber, counter);
        var iEnd := if packetSize - offset < 64 then packetSize - offset else 64;
        for i := 0 to iEnd
          invariant Rotated() == Opened(crypto, n, w, offset - 4 + i)
        {
          OpenedStep(crypto, n, w, offset - 4 + i);
          KeyByteAt(crypto, n, counter - 1, i);
          var x := Get(offset + i);
          Put(offset + i, XorByte(x, stream[i]));
        }
        offset := offset + iEnd;
        if offset == packetSize {
          break;
        }
      }
      OpenedPrefix(crypto, n, w, size, receivedSize);
    }
  }

  // The double-mapped ring, seen from a position further on.
  lemma Turned(ring: seq<u8>, pos: nat, step: nat, received: nat)
    requires pos < |ring| && step <= received <= |ring|
    ensures var next := if pos + step < |ring| then pos + step else pos + step - |ring|;
            (ring + ring)[pos..pos + |ring|][..received][step..] ==
              (ring + ring)[next..next + |ring|][..received - step]
  {
    var next := if pos + step < |ring| then pos + step else pos + step - |ring|;
    var left := (ring + ring)[pos..pos + |ring|][..received][step..];
    var right := (ring + ring)[next..next + |ring|][..received - step];
    assert |left| == |right|;
    forall k | 0 <= k < |left|
      ensures left[k] == right[k]
    {
      assert left[k] == (ring + ring)[pos + step + k] && right[k] == (ring + ring)[next + k];
      TwiceAt(ring, pos + step + k);
      TwiceAt(ring, next + k);
    }
  }

  lemma TwiceAt(ring: seq<u8>, i: nat)
    requires i < 2 * |ring|
    ensures (ring + ring)[i] == ring[if i < |ring| then i else i - |ring|]
  {
  }

  lemma TurnedPosition(pos: nat, step: nat, size: nat)
    requires pos < size && step <= size && pos % 4 == 0 && step % 4 == 0 && size % 4 == 0
    ensures (pos + step) % size == (if pos + step < size then pos + step else pos + step - size)
    ensures (pos + step) % size % 4 == 0
  {
    Aligned(pos, step, size);
    hide *;
    if pos + step < size {
      DivModUnique(pos + step, size, 0, pos + step);
    } else {
      DivModUnique(pos + step, size, 1, pos + step - size);
    }
  }

  lemma Aligned(x: nat, y: nat, z: nat)
    requires x % 4 == 0 && y % 4 == 0 && z % 4 == 0
    ensures (x + y) % 4 == 0 && (x + y - z) % 4 == 0
  {
  }

  lemma OpenedRest(c: Crypto, n: nat, w: seq<u8>, size: nat, from: nat)
    requires 4 + size <= from <= |w|
    ensures Opened(c, n, w, size)[from..] == w[from..]
  {
    hide BodyBytes;
  }

  lemma FrontSize(c: Crypto, n: nat, w: seq<u8>)
    ensures FrontOf(c, n, w).Message? ==> 4 + FrontOf(c, n, w).size + MacSize(c) <= |w|
  {
    hide BodyBytes, PacketTag, DecodedSize;
  }

  // Where the message of a decrypted packet lies.
  lemma OpenedMessage(c: Crypto, n: nat, w: seq<u8>)
    ensures var f := FrontOf(c, n, w);
            f.Message? ==>
              0 < f.size && 4 + f.size + MacSize(c) <= |w| &&
              var plain := Opened(c, n, w, f.size);
              |f.payload| == f.size - plain[4] - 1 && |f.payload| > 0 && plain[5..5 + |f.payload|] == f.payload
  {
    hide BodyBytes, PacketTag, DecodedSize;
    var f := FrontOf(c, n, w);
    if f.Message? {
      assert Opened(c, n, w, f.size)[4..4 + f.size] == BodyBytes(c, n, w[4..4 + f.size]);
    }
  }

  lemma FrontErrors(c: Crypto, n: nat, w: seq<u8>)
    ensures FrontOf(c, n, w).Failed? ==> FrontOf(c, n, w).code < 0
  {
    hide BodyBytes, PacketTag, DecodedSize;
  }

  // Decryption leaves the length alone.
  lemma OpenedHead(c: Crypto, n: nat, w: seq<u8>, size: nat)
    requires 4 + size <= |w|
    ensures DecodedSize(c, n, Opened(c, n, w, size)) == DecodedSize(c, n, w)
  {
    hide BodyBytes, DecodedSize;
    DecodedAgain(c, n, Opened(c, n, w, size), w);
  }

  lemma PacketTagIs(c: Crypto, n: nat, data: seq<u8>)
    ensures c.ChaCha? ==> PacketTag(c, n, data) == Tag(c.body(n, 0)[..32], data)
    ensures c.NoCrypto? ==> PacketTag(c, n, data) == []
  {
    hide Tag;
  }

  lemma OpenedClear(c: Crypto, n: nat, w: seq<u8>, size: nat)
    requires c.NoCrypto? && 4 + size <= |w|
    ensures Opened(c, n, w, size) == w
    ensures PacketTag(c, n, w[..4 + size]) == w[4 + size..4 + size + MacSize(c)]
  {
    assert w[..4] + w[4..4 + size] + w[4 + size..] == w;
  }

  // What a complete packet of a known size is, in terms of the bytes after decryption.
  lemma FrontCases(c: Crypto, n: nat, w: seq<u8>, size: nat, padding: u8)
    requires 4 + size + MacSize(c) <= |w| && DecodedSize(c, n, w) == size && Acceptable(c, size)
    ensures var good := PacketTag(c, n, w[..4 + size]) == w[4 + size..4 + size + MacSize(c)];
            var plain := Opened(c, n, w, size);
            (!good ==> FrontOf(c, n, w) == Failed(-3)) &&
            (good && (size == 0 || plain[4] == padding) ==>
               FrontOf(c, n, w) == if size <= padding + 1 then Failed(-4)
                                   else Message(plain[5..4 + size - padding], size))
  {
    hide BodyBytes, SizeBytes, PacketTag, BeNat, DecodedSize;
    assert Opened(c, n, w, size)[4..4 + size] == BodyBytes(c, n, w[4..4 + size]);
  }

  lemma OpenedNothing(c: Crypto, n: nat, w: seq<u8>)
    requires |w| >= 4
    ensures Opened(c, n, w, 0) == w
  {
    assert BodyBytes(c, n, w[4..4]) == [];
    assert w[..4] + [] + w[4..] == w;
  }

  lemma OpenedStep(c: Crypto, n: nat, w: seq<u8>, k: nat)
    requires c.ChaCha? && 4 + k < |w|
    ensures Opened(c, n, w, k)[4 + k] == w[4 + k]
    ensures Opened(c, n, w, k + 1) == Opened(c, n, w, k)[4 + k := XorByte(w[4 + k], KeyByte(c, n, k))]
  {
    hide XorByte, KeyByte;
    assert BodyBytes(c, n, w[4..4 + k + 1]) == BodyBytes(c, n, w[4..4 + k]) + [XorByte(w[4 + k], KeyByte(c, n, k))];
  }

  lemma OpenedPrefix(c: Crypto, n: nat, w: seq<u8>, size: nat, k: nat)
    requires 4 + size <= k <= |w|
    ensures Opened(c, n, w, size)[..k] == Opened(c, n, w[..k], size)
  {
    hide BodyBytes;
    assert w[..k][4..4 + size] == w[4..4 + size];
  }

  // Arriving bytes leave the size and the first packet alone.
  lemma Arrived(c: Crypto, n: nat, raw: seq<u8>, chunk: seq<u8>)
    ensures |raw| >= 4 ==> DecodedSize(c, n, raw + chunk) == DecodedSize(c, n, raw)
    ensures var f := FrontOf(c, n, raw);
            f.Message? ==>
              4 + f.size <= |raw| && FrontOf(c, n, raw + chunk) == f &&
              Opened(c, n, raw + chunk, f.size) == Opened(c, n, raw, f.size) + chunk
  {
    hide BodyBytes, SizeBytes, PacketTag, BeNat;
    if |raw| >= 4 {
      assert (raw + chunk)[..4] == raw[..4];
    }
    if FrontOf(c, n, raw).Message? {
      FrontStable(c, n, raw, chunk);
      OpenedMore(c, n, raw, chunk, FrontOf(c, n, raw).size);
    }
  }

  lemma OpenedMore(c: Crypto, n: nat, raw: seq<u8>, chunk: seq<u8>, size: nat)
    requires 4 + size <= |raw|
    ensures Opened(c, n, raw + chunk, size) == Opened(c, n, raw, size) + chunk
  {
    hide BodyBytes;
    assert (raw + chunk)[4..4 + size] == raw[4..4 + size];
  }

  // Sending.

  // What a buffer holds before it is sent: the message and the bytes after it, which become the padding.
  ghost function Prepared(packet: array<u8>, messageSize: nat): Sent
    requires 5 + messageSize + 67 <= packet.Length
    reads packet
  {
    Sent(packet[5..5 + messageSize], packet[5 + messageSize..5 + messageSize + PaddingSize(messageSize)])
  }

  class Sender {
    var crypto: Crypto
    var sendSequenceNumber: nat

    constructor (crypto: Crypto, number: nat)
      ensures this.crypto == crypto && sendSequenceNumber == number
    {
      this.crypto := crypto;
      sendSequenceNumber := number;
    }

    method SwitchKeys(crypto: Crypto)
      modifies this`crypto
      ensures this.crypto == crypto
    {
      this.crypto := crypto;
    }

    // The packet is completed and sealed where it lies: five bytes of room, the message, and room for padding and tag.
    // Whatever stands in the room for the padding is sent. `numSent` is what `sendto` answers.
    method SendMessage(packet: array<u8>, messageSize: nat, numSent: int) returns (r: int, packetSize: nat)
      requires 0 < messageSize < 0x7FFF_0000 && 5 + messageSize + 67 + 16 <= packet.Length
      modifies this`sendSequenceNumber, packet
      ensures packetSize == 5 + messageSize + PaddingSize(messageSize) + MacSize(crypto)
      ensures packet[..packetSize] == Wire(crypto, old(sendSequenceNumber), old(Prepared(packet, messageSize)))
      ensures packet[packetSize..] == old(packet[packetSize..])
      ensures if numSent == packetSize then r == 0 &&
              sendSequenceNumber == (old(sendSequenceNumber) + 1) % 0x1_0000_0000
              else r == -1 && sendSequenceNumber == old(sendSequenceNumber)
    {
      hide BigEndian, Seal, Packet;
      var paddingSize := PaddingSize(messageSize);
      packetSize := 5 + messageSize + paddingSize;
      ghost var w := packet[..];
      Frame(packet, messageSize, paddingSize);
      ghost var framed := packet[..];
      assert framed[packetSize..] == w[packetSize..];
      LaterSuffix(framed, w, packetSize, MacSize(crypto));
      SealInPlace(packet, packetSize);
      packetSize := packetSize + MacSize(crypto);
      if numSent != packetSize {
        return -1, packetSize;
      }
      sendSequenceNumber := (sendSequenceNumber + 1) % 0x1_0000_0000;
      r := 0;
    }

    // Lines 192-195: the head in front of the message.
    method Frame(packet: array<u8>, messageSize: nat, paddingSize: u8)
      requires 5 + messageSize + paddingSize <= packet.Length
      modifies packet
      ensures packet[..5 + messageSize + paddingSize]
              == Packet(old(packet[5..5 + messageSize]), old(packet[5 + messageSize..5 + messageSize + paddingSize]))
      ensures packet[5 + messageSize + paddingSize..] == old(packet[5 + messageSize + paddingSize..])
    {
      hide BigEndian;
      ghost var w := packet[..];
      var size := 1 + messageSize + paddingSize;
      StoreBigEndian(packet, 0, size, 4);
      assert packet[..] == BigEndian(size, 4) + w[4..] by {
        assert packet[..] == packet[0..4] + packet[4..];
      }
      packet[4] := paddingSize;
      Framed(w, BigEndian(size, 4), messageSize, paddingSize);
    }

    // Lines 197-233.
    method SealInPlace(packet: array<u8>, packetSize: nat)
      requires 4 <= packetSize && packetSize + 16 <= packet.Length
      modifies packet
      ensures packet[..packetSize + MacSize(crypto)] == Seal(crypto, sendSequenceNumber, old(packet[..packetSize]))
      ensures packet[packetSize + MacSize(crypto)..] == old(packet[packetSize + MacSize(crypto)..])
    {
      hide Opened, SizeBytes, BodyBytes, PacketTag, Tag;
      ghost var w := packet[..];
      assert packet[..packetSize] == w[..packetSize];
      if crypto.NoCrypto? {
        SealClear(crypto, sendSequenceNumber, w[..packetSize]);
        return;
      }
      SealSize(packet);
      assert packet[..] == SizeBytes(crypto, sendSequenceNumber, w[..4]) + w[4..] by {
        assert packet[..] == packet[..4] + packet[4..];
      }
      SealBody(packet, packetSize);
      SealEncrypted(crypto, sendSequenceNumber, w, packetSize);
      ghost var e := packet[..];
      var data := packet[..packetSize];
      assert data == e[..packetSize];
      var tag := ComputeTag(crypto.body(sendSequenceNumber, 0)[..32], data);
      PacketTagIs(crypto, sendSequenceNumber, data);
      AppendTag(packet, packetSize, tag);
      LaterSuffix(e, w, packetSize, 16);
    }

    method AppendTag(packet: array<u8>, packetSize: nat, tag: seq<u8>)
      requires packetSize + |tag| <= packet.Length
      modifies packet
      ensures packet[..packetSize + |tag|] == old(packet[..packetSize]) + tag
      ensures packet[packetSize + |tag|..] == old(packet[packetSize + |tag|..])
    {
      for i := 0 to |tag|
        invariant packet[..packetSize] == old(packet[..packetSize]) &&
                  packet[packetSize + |tag|..] == old(packet[packetSize + |tag|..])
        invariant packet[packetSize..packetSize + i] == tag[..i]
      {
        packet[packetSize + i] := tag[i];
      }
    }

    method SealSize(packet: array<u8>)
      requires 4 <= packet.Length && crypto.ChaCha?
      modifies packet
      ensures packet[..4] == SizeBytes(crypto, sendSequenceNumber, old(packet[..4])) && packet[4..] == old(packet[4..])
    {
      hide XorByte;
      var stream := crypto.length(sendSequenceNumber, 0);
      for i := 0 to 4
        invariant packet[4..] == old(packet[4..])
        invariant forall j :: 0 <= j < 4 ==>
                  packet[j] == if j < i then XorByte(old(packet[j]), stream[j]) else old(packet[j])
      {
        packet[i] := XorByte(packet[i], stream[i]);
      }
    }

    method SealBody(packet: array<u8>, packetSize: nat)
      requires 4 <= packetSize <= packet.Length && crypto.ChaCha?
      modifies packet
      ensures packet[..] == Opened(crypto, sendSequenceNumber, old(packet[..]), packetSize - 4)
    {
      hide Opened, XorByte, KeyByte;
      ghost var w, n := packet[..], sendSequenceNumber;
      OpenedNothing(crypto, n, w);
      var offset, counter := 4, 0;
      while true
        invariant 4 <= offset <= packetSize && offset == 4 + 64 * counter
        invariant packet[..] == Opened(crypto, n, w, offset - 4)
        decreases packetSize - offset
      {
        counter := counter + 1;
        var stream := crypto.body(sendSequenceNumber, counter);
        var iEnd := if packetSize - offset < 64 then packetSize - offset else 64;
        for i := 0 to iEnd
          invariant packet[..] == Opened(crypto, n, w, offset - 4 + i)
        {
          OpenedStep(crypto, n, w, offset - 4 + i);
          KeyByteAt(crypto, n, counter - 1, i);
          packet[offset + i] := XorByte(packet[..][offset + i], stream[i]);
        }
        offset := offset + iEnd;
        if offset == packetSize {
          break;
        }
      }
    }
  }

  lemma LaterSuffix(a: seq<u8>, b: seq<u8>, k: nat, m: nat)
    requires k + m <= |a| && |a| == |b| && a[k..] == b[k..]
    ensures a[k + m..] == b[k + m..]
  {
    assert a[k + m..] == a[k..][m..] && b[k + m..] == b[k..][m..];
  }

  lemma Framed(w: seq<u8>, head: seq<u8>, messageSize: nat, paddingSize: u8)
    requires |head| == 4 && 5 + messageSize + paddingSize <= |w|
    ensures var end := 5 + messageSize + paddingSize;
            var framed := (head + w[4..])[4 := paddingSize];
            framed[..end] == head + ([paddingSize] + w[5..5 + messageSize] + w[5 + messageSize..end]) &&
              framed[end..] == w[end..]
  {
  }

  lemma SealClear(c: Crypto, n: nat, p: seq<u8>)
    requires c.NoCrypto? && |p| >= 4
    ensures Seal(c, n, p) == p
  {
    assert p[..4] + p[4..] == p;
  }

  lemma SealEncrypted(c: Crypto, n: nat, w: seq<u8>, k: nat)
    requires 4 <= k <= |w|
    ensures var e := Opened(c, n, SizeBytes(c, n, w[..4]) + w[4..], k - 4);
            Seal(c, n, w[..k]) == e[..k] + PacketTag(c, n, e[..k]) && e[k..] == w[k..]
  {
    hide SizeBytes, BodyBytes, PacketTag;
    var x := SizeBytes(c, n, w[..4]) + w[4..];
    assert w[..k][..4] == w[..4] && w[..k][4..] == w[4..k];
    assert x[4..4 + (k - 4)] == w[4..k];
    assert Opened(c, n, x, k - 4)[..k] == SizeBytes(c, n, w[..4]) + BodyBytes(c, n, w[4..k]);
  }

  // From one end to the other.

  ghost predicate AllSendable(ks: seq<Keyed>) {
    forall k :: 0 <= k < |ks| ==> Sendable(ks[k].crypto, ks[k].sent)
  }

  function Payloads(ks: seq<Keyed>): (r: seq<seq<u8>>)
    ensures |r| == |ks|
  {
    seq(|ks|, k requires 0 <= k < |ks| => ks[k].sent.payload)
  }

  // What the receiver sees when the bytes it holds and those still to come are the packets of a queue.
  lemma QueueFront(n: nat, queue: seq<Keyed>, raw: seq<u8>, incoming: seq<u8>)
    requires AllSendable(queue) && queue != [] && raw + incoming == WireAll(n, queue)
    ensures var c, m := queue[0].crypto, queue[0].sent;
            var size := 1 + |m.payload| + |m.padding|;
            |m.payload| > 0 &&
            ((FrontOf(c, n, raw) == Incomplete && incoming != []) ||
             (FrontOf(c, n, raw) == Message(m.payload, size) && 4 + size + MacSize(c) <= |raw| &&
              raw[4 + size + MacSize(c)..] + incoming == WireAll((n + 1) % 0x1_0000_0000, queue[1..])))
  {
    hide FrontOf, Wire;
    var c, m := queue[0].crypto, queue[0].sent;
    var w, rest := Wire(c, n, m), WireAll((n + 1) % 0x1_0000_0000, queue[1..]);
    assert raw + incoming == w + rest;
    if |raw| < |w| {
      assert raw == (w + rest)[..|raw|] == w[..|raw|];
      FrontOfPart(c, n, m, raw);
    } else {
      assert w == (raw + incoming)[..|w|] == raw[..|w|];
      assert raw == w + raw[|w|..];
      FrontOfWire(c, n, m, raw[|w|..]);
      assert raw[|w|..] + incoming == (raw + incoming)[|w|..] == rest;
    }
  }

  // Sends every message of a queue, each from its own buffer and with its own keys; `sendto` takes each packet whole.
  method SendAll(number: nat, ks: seq<Keyed>) returns (stream: seq<u8>)
    requires AllSendable(ks)
    ensures stream == WireAll(number, ks)
  {
    hide Wire, WireAll;
    var sender := new Sender(NoCrypto, number);
    stream := [];
    assert ks[0..] == ks;
    for k := 0 to |ks|
      invariant fresh(sender) && stream + WireAll(sender.sendSequenceNumber, ks[k..]) == WireAll(number, ks)
    {
      var m := ks[k].sent;
      WireAllStep(sender.sendSequenceNumber, ks, k, stream);
      sender.SwitchKeys(ks[k].crypto);
      var packet := Compose(m);
      var size := 5 + |m.payload| + |m.padding| + MacSize(ks[k].crypto);
      var _, packetSize := sender.SendMessage(packet, |m.payload|, size);
      stream := stream + packet[..packetSize];
    }
    WireAllEnd(sender.sendSequenceNumber, ks, stream);
  }

  lemma WireAllStep(n: nat, ks: seq<Keyed>, k: nat, stream: seq<u8>)
    requires k < |ks|
    ensures stream + WireAll(n, ks[k..]) ==
            (stream + Wire(ks[k].crypto, n, ks[k].sent)) + WireAll((n + 1) % 0x1_0000_0000, ks[k + 1..])
  {
    hide Wire;
    assert ks[k..][1..] == ks[k + 1..];
    assert WireAll(n, ks[k..]) == Wire(ks[k].crypto, n, ks[k].sent) + WireAll((n + 1) % 0x1_0000_0000, ks[k + 1..]);
  }

  lemma WireAllEnd(n: nat, ks: seq<Keyed>, stream: seq<u8>)
    ensures stream + WireAll(n, ks[|ks|..]) == stream
  {
    assert WireAll(n, []) == [];
  }

  // One round of `client_waitForMessage`, lines 176-187, for the message k that is awaited: it comes out, or more of
  // the stream goes in.
  method Wait(client: Client, ghost ks: seq<Keyed>, ghost k: nat, incoming: seq<u8>, wanted: nat)
    returns (message: seq<u8>, rest: seq<u8>, done: bool)
    requires client.Valid() && client.Tracking() && AllSendable(ks) && k < |ks| && client.crypto == ks[k].crypto
    requires client.raw + incoming == WireAll(client.frontNumber, ks[k..])
    modifies client, client.ring
    ensures client.Valid() && client.Tracking() && client.crypto == old(client.crypto)
    ensures if done then message == ks[k].sent.payload && rest == incoming && client.nextSize == 0 &&
                         client.raw + rest == WireAll(client.frontNumber, ks[k + 1..])
            else |rest| < |incoming| && client.raw + rest == WireAll(client.frontNumber, ks[k..])
  {
    hide FrontOf, WireAll, Sendable, Client.Tracking;
    ghost var raw, n := client.raw, client.frontNumber;
    assert ks[k..][1..] == ks[k + 1..];
    QueueFront(n, ks[k..], raw, incoming);
    rest := incoming;
    var r;
    r, message := client.NextMessage();
    done := r > 0;
    if !done {
      var size := ReadSize(wanted, client.ring.Length - client.receivedSize, |incoming|);
      var _ := client.Receive(Chunk(incoming[..size]));
      rest := incoming[size..];
      assert (raw + incoming[..size]) + rest == raw + incoming;
    }
  }

  // Every message of the queue comes out, in order and unchanged, for every way `cut` has of cutting the stream into
  // reads and whenever the keys change. At the end nothing is left over.
  method Session(number: nat, ks: seq<Keyed>, bufferSize: nat, cut: nat -> nat) returns (messages: seq<seq<u8>>)
    requires MAX_PACKET <= bufferSize && bufferSize % 4 == 0 && number < TWO_32 && AllSendable(ks)
    ensures messages == Payloads(ks)
  {
    hide FrontOf, WireAll, Sendable, Client.Tracking, Client.Valid;
    var incoming := SendAll(number, ks);
    var client := new Client(bufferSize, NoCrypto, number);
    messages := [];
    var count := 0;
    assert ks[0..] == ks && [] + incoming == incoming;
    for k := 0 to |ks|
      invariant client.Valid() && client.Tracking() && client.nextSize == 0 && fresh(client) && fresh(client.ring)
      invariant messages == Payloads(ks[..k]) && client.raw + incoming == WireAll(client.frontNumber, ks[k..])
    {
      client.SwitchKeys(ks[k].crypto);
      PayloadsStep(ks, k);
      var message, done := [], false;
      while !done
        invariant client.Valid() && client.Tracking() && client.crypto == ks[k].crypto
        invariant if done then message == ks[k].sent.payload && client.nextSize == 0 &&
                               client.raw + incoming == WireAll(client.frontNumber, ks[k + 1..])
                  else client.raw + incoming == WireAll(client.frontNumber, ks[k..])
        decreases !done, |incoming|
      {
        message, incoming, done := Wait(client, ks, k, incoming, cut(count));
        count := count + 1;
      }
      messages := messages + [message];
    }
    assert ks[..|ks|] == ks;
  }

  lemma PayloadsStep(ks: seq<Keyed>, k: nat)
    requires k < |ks|
    ensures Payloads(ks[..k]) + [ks[k].sent.payload] == Payloads(ks[..k + 1])
  {
  }

  // A buffer as the callers of `client_sendMessage` prepare it.
  method Compose(m: Sent) returns (packet: array<u8>)
    requires |m.padding| == PaddingSize(|m.payload|)
    ensures fresh(packet) && packet.Length == 5 + |m.payload| + 67 + 16 && Prepared(packet, |m.payload|) == m
  {
    var bytes := [0, 0, 0, 0, 0] + m.payload + m.padding;
    packet := new u8[5 + |m.payload| + 67 + 16](i => if 0 <= i < |bytes| then bytes[i] else 0);
    assert packet[..|bytes|] == bytes;
    assert m.payload == bytes[5..5 + |m.payload|] && m.padding == bytes[5 + |m.payload|..];
    assert packet[5..5 + |m.payload|] == packet[..|bytes|][5..5 + |m.payload|];
    assert packet[5 + |m.payload|..|bytes|] == packet[..|bytes|][5 + |m.payload|..];
  }
}
