/** The command queue of the modem client, router/router/modemClient.c: commands are packed into a byte array,
    written to the device one at a time, and removed when the device acknowledges them. */
module ModemQueue {
  import opened Words
  import opened Memory

  const CONSTANT: u8 := 1
  const START_SMS: u8 := 2
  const SEND_SMS: u8 := 3
  const QUEUE_SIZE: nat := 4103

  // A constant command is a pointer and a length; the other two hold their text.
  datatype Command =
    | Constant(address: u64, length: u16)
    | StartSms(number: seq<u8>)
    | SendSms(sms: seq<u8>)

  ghost predicate Sized(c: Command) {
    match c
    case Constant(_, _) => true
    case StartSms(number) => |number| < 0x100
    case SendSms(sms) => |sms| < 0x1_0000
  }

  // The packed structures, little-endian.
  function Encode(c: Command): (b: seq<u8>)
    ensures |b| > 0
  {
    match c
    case Constant(address, length) => [CONSTANT] + LeBytes(length, 2) + LeBytes(address, 8)
    case StartSms(number) => [START_SMS, |number| % 0x100] + number
    case SendSms(sms) => [SEND_SMS] + LeBytes(|sms|, 2) + sms
  }

  // The packed structures byte by byte: tag, then lengths low byte first.
  lemma PackedBytes(c: Command, i: nat)
    requires Sized(c)
    ensures c.Constant? ==>
              var b := Encode(c);
              |b| == 11 && b[0] == 1 && b[1] == c.length % 0x100 && b[2] == c.length / 0x100 &&
              (i < 8 ==> b[3 + i] == Shr(c.address, 8 * i) % 0x100)
    ensures c.StartSms? ==> Encode(c) == [2, |c.number|] + c.number
    ensures c.SendSms? ==> Encode(c) == [3, |c.sms| % 0x100, |c.sms| / 0x100] + c.sms
  {
    hide Shr;
    if c.Constant? {
      TwoBytes(c.length);
      if i < 8 {
        LeBytesAt(c.address, 8, i);
      }
    } else if c.SendSms? {
      TwoBytes(|c.sms|);
    }
  }

  lemma TwoBytes(n: nat)
    requires n < 0x1_0000
    ensures LeBytes(n, 2) == [n % 0x100, n / 0x100]
  {
    assert LeBytes(n / 0x100, 1) == [n / 0x100];
  }

  function EncodeAll(q: seq<Command>): seq<u8> {
    if |q| == 0 then [] else Encode(q[0]) + EncodeAll(q[1..])
  }

  lemma {:induction false} EncodeAllConcat(x: seq<Command>, y: seq<Command>)
    ensures EncodeAll(x + y) == EncodeAll(x) + EncodeAll(y)
  {
    hide Encode;
    if x == [] {
      assert x + y == y;
    } else {
      EncodeAllConcat(x[1..], y);
      assert (x + y)[1..] == x[1..] + y;
      Associate(Encode(x[0]), EncodeAll(x[1..]), EncodeAll(y));
    }
  }

  // Reading commands back from bytes.

  function HeadSize(b: seq<u8>): nat
    requires |b| > 0
  {
    if b[0] == CONSTANT then 11
    else if b[0] == START_SMS && |b| >= 2 then 2 + b[1]
    else if b[0] == SEND_SMS && |b| >= 3 then 3 + LeNat(b[1..3])
    else 0
  }

  function Head(b: seq<u8>): Command
    requires |b| > 0 && 0 < HeadSize(b) <= |b|
  {
    if b[0] == CONSTANT then
      LeBytesNat(b[3..11]);
      LeBytesNat(b[1..3]);
      SmallPowers();
      Constant(LeNat(b[3..11]), LeNat(b[1..3]))
    else if b[0] == START_SMS then StartSms(b[2..HeadSize(b)])
    else SendSms(b[3..HeadSize(b)])
  }

  function DecodeAll(b: seq<u8>): Option<seq<Command>> {
    if |b| == 0 then Some([])
    else if HeadSize(b) == 0 || HeadSize(b) > |b| then None
    else
      match DecodeAll(b[HeadSize(b)..])
      case None => None
      case Some(rest) => Some([Head(b)] + rest)
  }

  lemma SmallPowers()
    ensures Pow256(2) == 0x1_0000 && Pow256(8) == TWO_64
  {
    assert Pow256(4) == TWO_32;
    assert Pow256(6) == TWO_48;
  }

  lemma HeadOfEncoded(c: Command, t: seq<u8>)
    requires Sized(c)
    ensures var b := Encode(c) + t;
            HeadSize(b) == |Encode(c)| && Head(b) == c && b[HeadSize(b)..] == t
  {
    hide LeBytes, LeNat, Pow256;
    SmallPowers();
    var b := Encode(c) + t;
    match c
    case Constant(address, length) =>
      LeNatBytes(address, 8);
      LeNatBytes(length, 2);
      assert b[3..11] == LeBytes(address, 8) && b[1..3] == LeBytes(length, 2);
    case StartSms(number) =>
      assert b[2..2 + |number|] == number;
    case SendSms(sms) =>
      LeNatBytes(|sms|, 2);
      assert b[1..3] == LeBytes(|sms|, 2) && b[3..3 + |sms|] == sms;
  }

  // A packed queue has one reading: the commands that were packed.
  lemma {:induction false} QueueDecodes(q: seq<Command>)
    requires forall k :: 0 <= k < |q| ==> Sized(q[k])
    ensures DecodeAll(EncodeAll(q)) == Some(q)
  {
    hide Encode, Head, HeadSize;
    if |q| > 0 {
      QueueDecodes(q[1..]);
      HeadOfEncoded(q[0], EncodeAll(q[1..]));
      assert q == [q[0]] + q[1..];
    }
  }

  // Every START_SMS is immediately followed by its SEND_SMS, and there are no others.
  ghost predicate Paired(h: seq<Command>) {
    forall k :: 0 <= k < |h| ==> PairedAt(h, k)
  }

  ghost predicate PairedAt(h: seq<Command>, k: nat)
    requires k < |h|
  {
    (h[k].StartSms? ==> k + 1 < |h| && h[k + 1].SendSms?) && (h[k].SendSms? ==> k > 0 && h[k - 1].StartSms?)
  }

  // "AT+CMGS=\"", "\"\r"
  const SMS_COMMAND: seq<u8> := [65, 84, 43, 67, 77, 71, 83, 61, 34]
  const SMS_END: seq<u8> := [34, 13]

  // The memory that constant commands point into.
  type Text = (int, int) -> seq<u8>

  // What the device receives for a command.
  function Output(text: Text, c: Command): seq<u8> {
    match c
    case Constant(address, length) => text(address, length)
    case StartSms(number) => SMS_COMMAND + number + SMS_END
    case SendSms(sms) => sms + [0x1A]
  }

  // The bytes in numbers: AT+CMGS="...", and the message with a control-Z.
  lemma OutputBytes(text: Text, number: seq<u8>, sms: seq<u8>)
    ensures Output(text, StartSms(number)) ==
            [0x41, 0x54, 0x2B, 0x43, 0x4D, 0x47, 0x53, 0x3D, 0x22] + number + [0x22, 0x0D]
    ensures Output(text, SendSms(sms)) == sms + [0x1A]
  {
  }

  function Outputs(text: Text, h: seq<Command>): (r: seq<seq<u8>>)
    ensures |r| == |h|
  {
    seq(|h|, k requires 0 <= k < |h| => Output(text, h[k]))
  }

  class Modem {
    const text: Text
    const commandQueue: array<u8>
    var commandQueueSize: nat
    var pendingCommand: bool
    // Everything written to the device, one string for each command.
    var written: seq<seq<u8>>

    // Every command accepted since the connection was made, and how many of them were acknowledged.
    ghost var history: seq<Command>
    ghost var acked: nat

    ghost predicate Valid()
      reads this, commandQueue
    {
      commandQueue.Length == QUEUE_SIZE && commandQueueSize <= QUEUE_SIZE && acked <= |history| &&
      (forall k :: 0 <= k < |history| ==> Sized(history[k])) && Paired(history) &&
      commandQueue[..commandQueueSize] == EncodeAll(history[acked..]) &&
      (pendingCommand ==> acked < |history|) &&
      written == Outputs(text, history[..Started()])
    }

    // How many commands were written: the acknowledged ones and at most one more.
    ghost function Started(): (n: nat)
      requires acked <= |history| && (pendingCommand ==> acked < |history|)
      reads this
      ensures n <= |history|
    {
      if pendingCommand then acked + 1 else acked
    }

    // Lines 186-187, on connecting.
    constructor (text: Text)
      ensures Valid() && history == [] && acked == 0 && this.text == text && !pendingCommand && fresh(commandQueue)
    {
      this.text := text;
      commandQueue := new u8[QUEUE_SIZE];
      commandQueueSize := 0;
      pendingCommand := false;
      written := [];
      history := [];
      acked := 0;
    }

    // Writes the first command unless one is pending already. `accept` says whether the device takes all of it.
    method ProcessQueue(accept: bool) returns (r: int)
      requires Valid()
      modifies this`pendingCommand, this`written
      ensures Valid()
      ensures var idle := !old(pendingCommand) && acked < |history|;
              r == (if idle && !accept then -1 else 0) && pendingCommand == (old(pendingCommand) || (idle && accept))
    {
      hide Encode, EncodeAll, Paired;
      EncodedQueue(history, acked);
      if pendingCommand || commandQueueSize == 0 {
        return 0;
      }
      var data := FirstOutput();
      if !accept {
        return -1;
      }
      OutputsStep(text, history, acked);
      written := written + [data];
      pendingCommand := true;
      r := 0;
    }

    // The bytes to write for the first command.
    method FirstOutput() returns (data: seq<u8>)
      requires Valid() && acked < |history|
      ensures data == Output(text, history[acked])
    {
      hide Encode, EncodeAll, LeNat, Paired, Outputs;
      var b := commandQueue[..commandQueueSize];
      EncodedQueue(history, acked);
      HeadOfEncoded(history[acked], EncodeAll(history[acked + 1..]));
      if b[0] == CONSTANT {
        var constantLength, constant := LeNat(b[1..3]), LeNat(b[3..11]);
        data := text(constant, constantLength);
      } else if b[0] == START_SMS {
        var numberSize := b[1];
        data := SMS_COMMAND + b[2..2 + numberSize] + SMS_END;
      } else {
        assert b[0] == SEND_SMS;
        var smsSize := LeNat(b[1..3]);
        data := b[3..3 + smsSize] + [0x1A];
      }
    }

    // Bytes behind those in use.
    method Append(t: seq<u8>)
      requires commandQueueSize + |t| <= commandQueue.Length
      modifies this`commandQueueSize, commandQueue
      ensures commandQueueSize == old(commandQueueSize) + |t|
      ensures commandQueue[..commandQueueSize] == old(commandQueue[..commandQueueSize]) + t
    {
      ghost var m := commandQueue[..];
      Store(commandQueue, commandQueueSize, t);
      SpliceParts(m, commandQueueSize, t);
      commandQueueSize := commandQueueSize + |t|;
    }

    // Refused without a trace if there is no room, else queued, and written if nothing is pending.
    method QueueConstant(constant: u64, constantLength: u16, accept: bool) returns (r: int)
      requires Valid()
      modifies this, commandQueue
      ensures Valid() && acked == old(acked)
      ensures if old(commandQueueSize) > 4092 then
                r == -1 && history == old(history) && pendingCommand == old(pendingCommand)
              else
                history == old(history) + [Constant(constant, constantLength)] &&
                r == (if old(pendingCommand) || accept then 0 else -1) &&
                  pendingCommand == (old(pendingCommand) || accept)
    {
      hide Outputs, Encode, EncodeAll, Paired;
      if commandQueueSize > QUEUE_SIZE - 11 {
        return -1;
      }
      ghost var c := Constant(constant, constantLength);
      PairedAlone(c);
      Queued(history, acked, [c]);
      EncodeOne(c);
      AppendConstant(constant, constantLength);
      PairedConcat(history, [c]);
      assert history[..Started()] == (history + [c])[..Started()];
      history := history + [c];
      r := ProcessQueue(accept);
    }

    // Lines 127-131 and 133-137.

    method AppendStart(number: seq<u8>)
      requires |number| < 0x100 && commandQueueSize + 2 + |number| <= commandQueue.Length
      modifies this`commandQueueSize, commandQueue
      ensures commandQueueSize == old(commandQueueSize) + 2 + |number|
      ensures commandQueue[..commandQueueSize] == old(commandQueue[..commandQueueSize]) + Encode(StartSms(number))
    {
      ghost var before := commandQueue[..commandQueueSize];
      Append([START_SMS, |number|]);
      Append(number);
      Associate(before, [START_SMS, |number|], number);
    }

    method AppendSend(sms: seq<u8>)
      requires commandQueueSize + 3 + |sms| <= commandQueue.Length
      modifies this`commandQueueSize, commandQueue
      ensures commandQueueSize == old(commandQueueSize) + 3 + |sms|
      ensures commandQueue[..commandQueueSize] == old(commandQueue[..commandQueueSize]) + Encode(SendSms(sms))
    {
      hide LeBytes;
      ghost var before := commandQueue[..commandQueueSize];
      Append([SEND_SMS]);
      Append(LeBytes(|sms|, 2));
      Append(sms);
      Associate(before, [SEND_SMS], LeBytes(|sms|, 2));
      Associate(before, [SEND_SMS] + LeBytes(|sms|, 2), sms);
    }

    // Lines 111-115.
    method AppendConstant(constant: u64, constantLength: u16)
      requires commandQueueSize + 11 <= commandQueue.Length
      modifies this`commandQueueSize, commandQueue
      ensures commandQueueSize == old(commandQueueSize) + 11
      ensures commandQueue[..commandQueueSize] ==
              old(commandQueue[..commandQueueSize]) + Encode(Constant(constant, constantLength))
    {
      hide LeBytes;
      ghost var before := commandQueue[..commandQueueSize];
      Append([CONSTANT]);
      Append(LeBytes(constantLength, 2));
      Append(LeBytes(constant, 8));
      Associate(before, [CONSTANT], LeBytes(constantLength, 2));
      Associate(before, [CONSTANT] + LeBytes(constantLength, 2), LeBytes(constant, 8));
    }

    // Both commands of a message are queued, or neither.
    method QueueSms(number: seq<u8>, sms: seq<u8>, accept: bool) returns (r: int)
      requires Valid() && |number| < 0x100 && |sms| < 0x1_0000
      modifies this, commandQueue
      ensures Valid() && acked == old(acked)
      ensures if old(commandQueueSize) > 4098 - |number| - |sms| then
                r == -1 && history == old(history) && pendingCommand == old(pendingCommand)
              else
                history == old(history) + [StartSms(number), SendSms(sms)] &&
                r == (if old(pendingCommand) || accept then 0 else -1) &&
                  pendingCommand == (old(pendingCommand) || accept)
    {
      hide Outputs, Encode, EncodeAll, Paired;
      if commandQueueSize > QUEUE_SIZE - (2 + |number|) - (3 + |sms|) {
        return -1;
      }
      ghost var cs := [StartSms(number), SendSms(sms)];
      PairedTogether(number, sms);
      Queued(history, acked, cs);
      EncodeTwo(cs[0], cs[1]);
      Associate(EncodeAll(history[acked..]), Encode(cs[0]), Encode(cs[1]));
      AppendStart(number);
      AppendSend(sms);
      PairedConcat(history, cs);
      assert history[..Started()] == (history + cs)[..Started()];
      history := history + cs;
      r := ProcessQueue(accept);
    }

    // The pending command is removed, the rest moves down, and the next one is written.
    method AckPending(accept: bool) returns (r: int)
      requires Valid() && pendingCommand
      modifies this, commandQueue
      ensures Valid() && acked == old(acked) + 1 && history == old(history)
      ensures commandQueueSize < old(commandQueueSize)
      ensures r == (if acked < |history| && !accept then -1 else 0) && pendingCommand == (acked < |history| && accept)
    {
      hide Encode, EncodeAll, LeNat, Paired, Outputs;
      ghost var rest := EncodeAll(history[acked + 1..]);
      var b := commandQueue[..commandQueueSize];
      EncodedQueue(history, acked);
      HeadOfEncoded(history[acked], rest);
      var ackSize;
      if b[0] == CONSTANT {
        ackSize := 11;
      } else if b[0] == START_SMS {
        ackSize := 2 + b[1] as int;
      } else {
        assert b[0] == SEND_SMS;
        ackSize := 3 + LeNat(b[1..3]);
      }
      assert ackSize == HeadSize(b);
      assert commandQueue[ackSize..commandQueueSize] == b[ackSize..] == rest;
      commandQueueSize := commandQueueSize - ackSize;
      Memmove(commandQueue, 0, ackSize, commandQueueSize);
      assert commandQueue[..commandQueueSize] == commandQueue[0..0 + commandQueueSize];
      pendingCommand := false;
      acked := acked + 1;
      r := ProcessQueue(accept);
    }

    // While the device takes and acknowledges commands, every queued command is written once, in order.
    method Drain()
      requires Valid()
      modifies this, commandQueue
      ensures Valid() && history == old(history) && acked == |history| && written == Outputs(text, history)
    {
      hide Outputs, EncodeAll, Paired;
      var _ := ProcessQueue(true);
      while pendingCommand
        invariant Valid() && history == old(history) && (acked < |history| ==> pendingCommand)
        decreases commandQueueSize
      {
        var _ := AckPending(true);
      }
      assert history[..acked] == history;
    }
  }

  lemma Associate(x: seq<u8>, y: seq<u8>, z: seq<u8>)
    ensures x + y + z == x + (y + z)
  {
  }

  // The pairing is kept by what the two queueing functions add.
  lemma PairedConcat(h: seq<Command>, cs: seq<Command>)
    requires Paired(h) && Paired(cs)
    ensures Paired(h + cs)
  {
    forall k | 0 <= k < |h + cs|
      ensures PairedAt(h + cs, k)
    {
      if k < |h| {
        assert PairedAt(h, k);
      } else {
        assert PairedAt(cs, k - |h|);
      }
    }
  }

  lemma PairedAlone(c: Command)
    requires c.Constant?
    ensures Paired([c])
  {
  }

  lemma PairedTogether(number: seq<u8>, sms: seq<u8>)
    ensures Paired([StartSms(number), SendSms(sms)])
  {
  }

  // Commands added behind a queue.
  lemma Queued(h: seq<Command>, acked: nat, cs: seq<Command>)
    requires acked <= |h|
    ensures EncodeAll((h + cs)[acked..]) == EncodeAll(h[acked..]) + EncodeAll(cs)
  {
    hide EncodeAll;
    EncodeAllConcat(h[acked..], cs);
    assert (h + cs)[acked..] == h[acked..] + cs;
  }

  lemma EncodeOne(c: Command)
    ensures EncodeAll([c]) == Encode(c)
  {
    hide Encode;
    assert Encode(c) + [] == Encode(c);
  }

  lemma EncodeTwo(c: Command, d: Command)
    ensures EncodeAll([c, d]) == Encode(c) + Encode(d)
  {
    hide Encode, EncodeAll;
    EncodeAllConcat([c], [d]);
    EncodeOne(c);
    EncodeOne(d);
    assert [c, d] == [c] + [d];
  }

  lemma EncodedQueue(h: seq<Command>, acked: nat)
    requires acked <= |h|
    ensures acked == |h| ==> EncodeAll(h[acked..]) == []
    ensures acked < |h| ==>
              EncodeAll(h[acked..]) == Encode(h[acked]) + EncodeAll(h[acked + 1..]) && |Encode(h[acked])| > 0
  {
    hide Encode;
    if acked < |h| {
      assert h[acked..][1..] == h[acked + 1..];
    }
  }

  lemma OutputsStep(text: Text, h: seq<Command>, k: nat)
    requires k < |h|
    ensures Outputs(text, h[..k]) + [Output(text, h[k])] == Outputs(text, h[..k + 1])
  {
  }
}
