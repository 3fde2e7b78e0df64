/** The telnet server of router/router/telnetServer.c: the resumable decoder of client bytes and the encoder of terminal
    output (RFC 854; window size negotiation in section 2 of RFC 1073).

    `Decode` gives the meaning of a whole client stream. The server sees the stream in arbitrary reads and keeps an
    unfinished command in a 12-byte array between them. The terminal may stop taking bytes or window sizes at any point,
    and the client may stop taking bytes: how many are taken is a parameter. */
module Telnet {
  import opened Words

  const CR: u8 := 13
  const LF: u8 := 10
  const SE: u8 := 240
  const NOP: u8 := 241
  const GO_AHEAD: u8 := 249
  const SB: u8 := 250
  const WILL: u8 := 251
  const DONT: u8 := 254
  const IAC: u8 := 255
  const OPT_NAWS: u8 := 31

  // What the server does: a byte written to the terminal, a window size set, the client dropped.
  datatype Event = Output(byte: u8) | WindowSize(cols: u16, rows: u16) | Kick

  // The meaning of a stream.

  datatype Number = Short | Malformed | Number(value: u16, next: nat)

  // One byte of a window size, where IAC is doubled.
  datatype NawsByte = ByteShort | ByteMalformed | NawsByte(value: u8, next: nat)

  function ReadNawsByte(s: seq<u8>, at: nat): (r: NawsByte)
    ensures r.NawsByte? ==> at < r.next <= |s| && r.next <= at + 2
    ensures r.ByteShort? ==> |s| <= at + 1
  {
    if at >= |s| then ByteShort
    else if s[at] != IAC then NawsByte(s[at], at + 1)
    else if at + 1 >= |s| then ByteShort
    else if s[at + 1] != IAC then ByteMalformed
    else NawsByte(s[at + 1], at + 2)
  }

  function ReadNumber(s: seq<u8>, at: nat): (r: Number)
    ensures r.Number? ==> at < r.next <= |s| && r.next <= at + 4
    ensures r.Short? ==> |s| <= at + 3
  {
    match ReadNawsByte(s, at)
    case ByteShort => Short
    case ByteMalformed => Malformed
    case NawsByte(msb, next) =>
      match ReadNawsByte(s, next)
      case ByteShort => Short
      case ByteMalformed => Malformed
      case NawsByte(lsb, next') => Number(msb as int * 0x100 + lsb, next')
  }

  // The first item of a stream: more bytes are needed, the client misbehaves, or an event list and a length.
  datatype Item = NeedMore | Bad | Item(events: seq<Event>, size: nat)

  function WindowItem(s: seq<u8>): (r: Item)
    ensures r.Item? ==> 0 < r.size <= |s|
    ensures r.NeedMore? ==> |s| <= 12
  {
    match ReadNumber(s, 3)
    case Short => NeedMore
    case Malformed => Bad
    case Number(cols, next) =>
      match ReadNumber(s, next)
      case Short => NeedMore
      case Malformed => Bad
      case Number(rows, next') =>
        if |s| < next' + 2 then NeedMore
        else if s[next'] != IAC || s[next' + 1] != SE then Bad
        else Item([WindowSize(cols, rows)], next' + 2)
  }

  function FirstItem(s: seq<u8>): (r: Item)
    ensures r.Item? ==> 0 < r.size <= |s|
    ensures r.NeedMore? ==> |s| <= 12 && (|s| > 0 ==> s[0] == CR || s[0] == IAC)
  {
    if |s| == 0 then NeedMore
    else if s[0] != CR && s[0] != IAC then Item([Output(s[0])], 1)
    else if |s| == 1 then NeedMore
    else if s[0] == CR then (if s[1] == 0 || s[1] == LF then Item([Output(CR)], 2) else Bad)
    else if NOP <= s[1] <= GO_AHEAD then Item([], 2)
    else if WILL <= s[1] <= DONT then (if |s| == 2 then NeedMore else Item([], 3))
    else if s[1] == IAC then Item([Output(IAC)], 2)
    else if s[1] == SB then (if |s| == 2 then NeedMore else if s[2] != OPT_NAWS then Bad else WindowItem(s))
    else Bad
  }

  // Everything a stream causes, and the unfinished command at its end.
  datatype Outcome = Outcome(events: seq<Event>, rest: seq<u8>, kicked: bool)

  function Decode(s: seq<u8>): Outcome
    decreases |s|
  {
    match FirstItem(s)
    case NeedMore => Outcome([], s, false)
    case Bad => Outcome([Kick], [], true)
    case Item(events, size) =>
      var o := Decode(s[size..]);
      Outcome(events + o.events, o.rest, o.kicked)
  }

  // Items do not change when more bytes follow.

  lemma NumberStable(s: seq<u8>, t: seq<u8>, at: nat)
    ensures !ReadNumber(s, at).Short? ==> ReadNumber(s + t, at) == ReadNumber(s, at)
  {
  }

  lemma ItemStable(s: seq<u8>, t: seq<u8>)
    ensures !FirstItem(s).NeedMore? ==> FirstItem(s + t) == FirstItem(s)
  {
    if !FirstItem(s).NeedMore? {
      NumberStable(s, t, 3);
      var n := ReadNumber(s, 3);
      if n.Number? {
        NumberStable(s, t, n.next);
      }
      hide ReadNumber;
    }
  }

  // Decoding in two reads: the second starts with the unfinished command of the first.
  lemma {:induction false} DecodeSplit(s: seq<u8>, t: seq<u8>)
    ensures var o := Decode(s);
            Decode(s + t) == if o.kicked then o
                             else var p := Decode(o.rest + t); Outcome(o.events + p.events, p.rest, p.kicked)
    decreases |s|
  {
    hide FirstItem;
    ItemStable(s, t);
    match FirstItem(s)
    case NeedMore =>
      var p := Decode(s + t);
      assert [] + p.events == p.events;
    case Bad =>
    case Item(events, size) =>
      DecodeSplit(s[size..], t);
      assert (s + t)[size..] == s[size..] + t;
      var o := Decode(s[size..]);
      var p := Decode(o.rest + t);
      assert events + (o.events + p.events) == (events + o.events) + p.events;
  }

  // What is left over is a proper command prefix.
  lemma {:induction false} RestIsUnfinished(s: seq<u8>)
    ensures !Decode(s).kicked ==> FirstItem(Decode(s).rest).NeedMore?
    decreases |s|
  {
    hide FirstItem;
    match FirstItem(s)
    case NeedMore =>
    case Bad =>
    case Item(events, size) => RestIsUnfinished(s[size..]);
  }

  // What a client may send, item by item, and the bytes it sends for it (RFC 854; section 2 of RFC 1073). This is what
  // `Decode` is measured against.

  datatype ClientItem =
    | Data(byte: u8)
    | CrNul
    | CrLf
    | Command(code: u8)
    | Negotiation(code: u8, option: u8)
    | Size(cols: u16, rows: u16)

  ghost predicate IsItem(x: ClientItem) {
    match x
    case Data(b) => b != 13
    case Command(c) => 241 <= c <= 249
    case Negotiation(c, _) => 251 <= c <= 254
    case _ => true
  }

  function Doubled(b: u8): seq<u8> {
    if b == 255 then [255, 255] else [b]
  }

  // High byte first.
  function SizeBytes(n: u16): seq<u8> {
    Doubled(n / 0x100) + Doubled(n % 0x100)
  }

  function EncodeItem(x: ClientItem): (s: seq<u8>)
    ensures |s| > 0
  {
    match x
    case Data(b) => Doubled(b)
    case CrNul => [13, 0]
    case CrLf => [13, 10]
    case Command(c) => [255, c]
    case Negotiation(c, option) => [255, c, option]
    case Size(cols, rows) => [255, 250, 31] + SizeBytes(cols) + SizeBytes(rows) + [255, 240]
  }

  function EventsOf(x: ClientItem): seq<Event> {
    match x
    case Data(b) => [Output(b)]
    case CrNul => [Output(13)]
    case CrLf => [Output(13)]
    case Size(cols, rows) => [WindowSize(cols, rows)]
    case _ => []
  }

  function EncodeItems(xs: seq<ClientItem>): seq<u8> {
    if |xs| == 0 then [] else EncodeItem(xs[0]) + EncodeItems(xs[1..])
  }

  function AllEvents(xs: seq<ClientItem>): seq<Event> {
    if |xs| == 0 then [] else EventsOf(xs[0]) + AllEvents(xs[1..])
  }

  lemma NawsByteRead(s: seq<u8>, at: nat, b: u8)
    requires at <= |s| && Doubled(b) <= s[at..]
    ensures ReadNawsByte(s, at) == NawsByte(b, at + |Doubled(b)|)
  {
    assert s[at] == s[at..][0];
    if b == 255 {
      assert s[at + 1] == s[at..][1];
    }
  }

  lemma NumberRead(s: seq<u8>, at: nat, n: u16)
    requires at <= |s| && SizeBytes(n) <= s[at..]
    ensures ReadNumber(s, at) == Number(n, at + |SizeBytes(n)|)
  {
    hide ReadNawsByte, Doubled;
    var hi, lo := Doubled(n / 0x100), Doubled(n % 0x100);
    TwoPrefixes(s, at, hi, lo);
    NawsByteRead(s, at, n / 0x100);
    NawsByteRead(s, at + |hi|, n % 0x100);
  }

  lemma TwoPrefixes(s: seq<u8>, at: nat, x: seq<u8>, y: seq<u8>)
    requires at <= |s| && x + y <= s[at..]
    ensures x <= s[at..] && at + |x| <= |s| && y <= s[at + |x|..]
  {
    assert s[at..][..|x|] == (x + y)[..|x|] == x;
    assert s[at + |x|..] == s[at..][|x|..];
    assert s[at..][|x|..][..|y|] == s[at..][..|x| + |y|][|x|..] == (x + y)[|x|..] == y;
  }

  lemma WindowRead(cols: u16, rows: u16, t: seq<u8>)
    ensures var e := EncodeItem(Size(cols, rows)); WindowItem(e + t) == Item([WindowSize(cols, rows)], |e|)
  {
    hide ReadNumber, SizeBytes;
    var c, r := SizeBytes(cols), SizeBytes(rows);
    var s := EncodeItem(Size(cols, rows)) + t;
    assert s[3..][..|c|] == c;
    NumberRead(s, 3, cols);
    assert s[3 + |c|..][..|r|] == r;
    NumberRead(s, 3 + |c|, rows);
    var k := 3 + |c| + |r|;
    assert s[k] == 255 && s[k + 1] == 240;
  }

  lemma ItemRead(x: ClientItem, t: seq<u8>)
    requires IsItem(x)
    ensures FirstItem(EncodeItem(x) + t) == Item(EventsOf(x), |EncodeItem(x)|)
  {
    hide WindowItem, SizeBytes;
    if x.Size? {
      WindowRead(x.cols, x.rows, t);
    }
  }

  // A list of items, whatever follows: its events and nothing left over.
  lemma {:induction false} DecodeItems(xs: seq<ClientItem>, t: seq<u8>)
    requires forall k :: 0 <= k < |xs| ==> IsItem(xs[k])
    ensures Decode(EncodeItems(xs) + t) == Prepend(AllEvents(xs), Decode(t))
    ensures t == [] ==> Decode(EncodeItems(xs)) == Outcome(AllEvents(xs), [], false)
  {
    hide FirstItem, EncodeItem, EventsOf;
    if t == [] {
      EndOfBuffer(AllEvents(xs), t);
      assert EncodeItems(xs) + t == EncodeItems(xs);
    }
    if xs == [] {
      assert [] + t == t;
      PrependEmpty(Decode(t));
    } else {
      var s := EncodeItems(xs[1..]) + t;
      DecodeItems(xs[1..], t);
      ItemRead(xs[0], s);
      assert EncodeItems(xs) + t == EncodeItem(xs[0]) + s;
      assert (EncodeItem(xs[0]) + s)[|EncodeItem(xs[0])|..] == s;
      PrependTwice(EventsOf(xs[0]), AllEvents(xs[1..]), Decode(t));
    }
  }

  // Conversely, what is taken for an item is one.

  lemma NumberParsed(s: seq<u8>, at: nat)
    requires at <= |s| && ReadNumber(s, at).Number?
    ensures var n := ReadNumber(s, at); SizeBytes(n.value) == s[at..n.next]
  {
    NawsByteParsed(s, at);
    var hi := ReadNawsByte(s, at);
    NawsByteParsed(s, hi.next);
    var lo := ReadNawsByte(s, hi.next);
    hide ReadNawsByte, Doubled;
    DivModUnique(hi.value as int * 0x100 + lo.value, 0x100, hi.value, lo.value);
    assert s[at..lo.next] == s[at..hi.next] + s[hi.next..lo.next];
  }

  lemma NawsByteParsed(s: seq<u8>, at: nat)
    requires at <= |s|
    ensures var b := ReadNawsByte(s, at); b.NawsByte? ==> Doubled(b.value) == s[at..b.next]
  {
  }

  lemma ItemParsed(s: seq<u8>) returns (x: ClientItem)
    requires FirstItem(s).Item?
    ensures IsItem(x) && EncodeItem(x) <= s && FirstItem(s) == Item(EventsOf(x), |EncodeItem(x)|)
  {
    hide WindowItem, ReadNumber, SizeBytes;
    if s[0] != 13 && s[0] != 255 {
      x := Data(s[0]);
    } else if s[0] == 13 {
      x := if s[1] == 0 then CrNul else CrLf;
    } else if 241 <= s[1] <= 249 {
      x := Command(s[1]);
    } else if 251 <= s[1] <= 254 {
      x := Negotiation(s[1], s[2]);
    } else if s[1] == 255 {
      x := Data(255);
    } else {
      x := WindowParsed(s);
    }
  }

  lemma WindowParsed(s: seq<u8>) returns (x: ClientItem)
    requires |s| >= 3 && s[0] == 255 && s[1] == 250 && s[2] == 31 && WindowItem(s).Item?
    ensures x.Size? && EncodeItem(x) <= s && WindowItem(s) == Item(EventsOf(x), |EncodeItem(x)|)
  {
    hide ReadNumber, SizeBytes;
    var cols := ReadNumber(s, 3);
    var rows := ReadNumber(s, cols.next);
    NumberParsed(s, 3);
    NumberParsed(s, cols.next);
    x := Size(cols.value, rows.value);
    var k := rows.next;
    assert s[..3] == [255, 250, 31] && s[k..k + 2] == [255, 240];
    assert s[..k + 2] == s[..3] + s[3..cols.next] + s[cols.next..k] + s[k..k + 2];
  }

  // An unfinished command can be finished: some byte takes it further.

  lemma NumberGoesOn(s: seq<u8>, at: nat, b: u8)
    requires at <= |s| && ReadNumber(s, at).Short? && b == (if NeedsDouble(s, at) then 255 else 0)
    ensures var n := ReadNumber(s + [b], at); n.Short? || (n.Number? && n.next == |s| + 1)
  {
  }

  // Whether the last byte is the first half of a doubled 255.
  function NeedsDouble(s: seq<u8>, at: nat): bool {
    match ReadNawsByte(s, at)
    case ByteShort => at < |s|
    case ByteMalformed => false
    case NawsByte(_, next) => next < |s|
  }

  // A window size whose end starts with a wrong byte. The server looks at the two end bytes only when it has both, so
  // this is kept although nothing can complete it.
  ghost predicate Doomed(s: seq<u8>) {
    |s| >= 3 && s[..3] == [255, 250, 31] &&
    var cols := ReadNumber(s, 3);
    cols.Number? &&
    var rows := ReadNumber(s, cols.next);
    rows.Number? && |s| == rows.next + 1 && s[rows.next] != 255
  }

  lemma DoomedBytes(s: seq<u8>)
    ensures Doomed(s) <==>
            exists cols: u16, rows: u16, b: u8 :: b != 255 &&
              s == [255, 250, 31] + SizeBytes(cols) + SizeBytes(rows) + [b]
    ensures Doomed(s) ==> FirstItem(s).NeedMore?
  {
    hide ReadNumber, SizeBytes;
    if Doomed(s) {
      var cols := ReadNumber(s, 3);
      var rows := ReadNumber(s, cols.next);
      NumberParsed(s, 3);
      NumberParsed(s, cols.next);
      var k := rows.next;
      assert s == s[..3] + s[3..cols.next] + s[cols.next..k] + [s[k]];
    }
    if cols: u16, rows: u16, b: u8 :| b != 255 && s == [255, 250, 31] + SizeBytes(cols) + SizeBytes(rows) + [b] {
      var c, r := SizeBytes(cols), SizeBytes(rows);
      assert s[3..][..|c|] == c;
      NumberRead(s, 3, cols);
      assert s[3 + |c|..][..|r|] == r;
      NumberRead(s, 3 + |c|, rows);
    }
  }

  lemma WindowGoesOn(s: seq<u8>) returns (b: u8)
    requires |s| >= 3 && s[0] == 255 && s[1] == 250 && s[2] == 31 && WindowItem(s).NeedMore? && !Doomed(s)
    ensures !WindowItem(s + [b]).Bad? && !Doomed(s + [b])
  {
    hide ReadNawsByte, NeedsDouble, ReadNumber;
    assert s[..3] == [255, 250, 31];
    var cols := ReadNumber(s, 3);
    if cols.Short? {
      b := if NeedsDouble(s, 3) then 255 else 0;
      NumberGoesOn(s, 3, b);
      NumberAtEnd(s + [b]);
    } else {
      var rows := ReadNumber(s, cols.next);
      b := if rows.Short? then (if NeedsDouble(s, cols.next) then 255 else 0) else if |s| == rows.next then 255
        else 240;
      NumberStable(s, [b], 3);
      NumberStable(s, [b], cols.next);
      if rows.Short? {
        NumberGoesOn(s, cols.next, b);
      }
    }
  }

  lemma NumberAtEnd(s: seq<u8>)
    ensures ReadNumber(s, |s|).Short?
  {
  }

  lemma GoesOn(s: seq<u8>) returns (b: u8)
    requires |s| > 0 && FirstItem(s).NeedMore? && !Doomed(s)
    ensures !FirstItem(s + [b]).Bad? && !Doomed(s + [b])
  {
    hide WindowItem;
    if |s| >= 3 {
      b := WindowGoesOn(s);
    } else if |s| == 2 {
      b := 31;
      WindowStart(s + [b]);
    } else {
      b := if s[0] == 13 then 0 else 241;
    }
  }

  lemma WindowStart(s: seq<u8>)
    requires |s| == 3
    ensures WindowItem(s).NeedMore? && !Doomed(s)
  {
  }

  lemma {:induction false} Completion(s: seq<u8>) returns (x: ClientItem)
    requires |s| > 0 && FirstItem(s).NeedMore? && !Doomed(s)
    ensures IsItem(x) && s < EncodeItem(x)
    decreases 13 - |s|
  {
    hide FirstItem, EncodeItem, Doomed;
    AtMostTwelve(s);
    var b := GoesOn(s);
    var z := s + [b];
    if FirstItem(z).NeedMore? {
      x := Completion(z);
    } else {
      x := ItemParsed(z);
      var e := EncodeItem(x);
      if |e| <= |s| {
        assert s == e + s[|e|..] by {
          assert e == z[..|e|] == s[..|e|];
        }
        ItemRead(x, s[|e|..]);
        assert false;
      }
      assert e == z;
    }
  }

  lemma AtMostTwelve(s: seq<u8>)
    ensures FirstItem(s).NeedMore? ==> |s| <= 12
  {
    hide WindowItem;
  }

  // The three outcomes for the front of a stream, in terms of what clients may send: an item, a part of one, or
  // neither, which is kicked at once but for the doomed window size.
  lemma FirstItemMeans(s: seq<u8>)
    ensures FirstItem(s).Item? <==> exists x :: IsItem(x) && EncodeItem(x) <= s
    ensures FirstItem(s).NeedMore? <==> Doomed(s) || exists x :: IsItem(x) && s < EncodeItem(x)
    ensures FirstItem(s).Bad? <==> !Doomed(s) && forall x :: IsItem(x) ==> !(EncodeItem(x) <= s) && !(s < EncodeItem(x))
  {
    hide FirstItem, EncodeItem, Doomed;
    DoomedBytes(s);
    forall x | IsItem(x)
      ensures EncodeItem(x) <= s ==> FirstItem(s).Item?
      ensures s < EncodeItem(x) ==> FirstItem(s).NeedMore?
    {
      var e := EncodeItem(x);
      if e <= s {
        assert s == e + s[|e|..];
        ItemRead(x, s[|e|..]);
      } else if s < e {
        ItemStable(s, e[|s|..]);
        assert s + e[|s|..] == e == e + [];
        ItemRead(x, []);
        ItemSize(s);
      }
    }
    if FirstItem(s).Item? {
      var x := ItemParsed(s);
    } else if FirstItem(s).NeedMore? {
      if s == [] {
        assert IsItem(CrNul) && s < EncodeItem(CrNul);
      } else if !Doomed(s) {
        var x := Completion(s);
      }
    }
  }

  lemma ItemSize(s: seq<u8>)
    ensures FirstItem(s).Item? ==> FirstItem(s).size <= |s|
  {
  }

  // The saved array: an unfinished command, right aligned and preceded by zeros.
  function Aligned(rest: seq<u8>): (a: seq<u8>)
    requires |rest| <= 12
    ensures |a| == 12
  {
    seq(12 - |rest|, _ => 0) + rest
  }

  // The events when the terminal takes no more than `limit` bytes and window sizes: the client is dropped at the next
  // one.
  function Limited(events: seq<Event>, limit: nat): seq<Event> {
    if |events| <= limit then events else events[..limit] + [Kick]
  }

  lemma LimitedSplit(x: seq<Event>, y: seq<Event>, limit: nat)
    ensures |x| > limit ==> Limited(x + y, limit) == Limited(x, limit)
    ensures |x| == limit && y != [] ==> Limited(x + y, limit) == x + [Kick]
    ensures |x| <= limit ==> Limited(x + [Kick], limit) == x + [Kick] && Limited(x, limit) == x
  {
  }

  class Server {
    const saved: array<u8>
    const limit: nat
    var connected: bool
    // Everything done on behalf of the current client.
    var log: seq<Event>

    // Everything received from the current client, and whether a read failed.
    ghost var stream: seq<u8>
    ghost var hungUp: bool

    ghost predicate Valid()
      reads this, saved
    {
      var o := Decode(stream);
      saved.Length == 12 && connected == (!o.kicked && |o.events| <= limit && !hungUp) &&
      log == Limited(o.events, limit) + (if hungUp then [Kick] else []) &&
      (connected ==> FirstItem(o.rest).NeedMore? && saved[..] == Aligned(o.rest))
    }

    // A new client: lines 81-82.
    constructor (limit: nat)
      ensures Valid() && connected && stream == [] && log == [] && !hungUp && fresh(saved) && this.limit == limit
    {
      this.limit := limit;
      saved := new u8[12](_ => 0);
      connected := true;
      log := [];
      stream := [];
      hungUp := false;
      new;
      assert saved[..] == Aligned([]);
    }

    // Lines 168-176: move the saved bytes to the front of the buffer.
    method TakeSaved(ghost rest: seq<u8>) returns (held: seq<u8>)
      requires saved.Length == 12 && |rest| <= 12 && saved[..] == Aligned(rest) && (|rest| > 0 ==> rest[0] != 0)
      modifies saved
      ensures held == rest && saved[..] == Aligned([])
    {
      held := [];
      for i := 0 to 12
        invariant saved[..] == Aligned(rest) && held == [] && i <= 12 - |rest|
      {
        if saved[i] != 0 {
          assert saved[..][i] == saved[i];
          held := saved[i..];
          assert held == saved[..][i..] == rest;
          for k := i to 12
            invariant forall j :: 0 <= j < k ==> saved[j] == 0
          {
            saved[k] := 0;
          }
          assert saved[..] == Aligned([]);
          return;
        }
        assert saved[..][i] == saved[i];
      }
      assert rest == [];
    }

    // -1 when the buffer ran out and the command from startI on was saved.
    method GetByteOrSave(buf: seq<u8>, startI: nat, currI: nat) returns (next: int, out: u8)
      requires saved.Length == 12 && startI <= currI <= |buf| && (currI == |buf| ==> currI - startI <= 12)
      requires saved[..] == Aligned([])
      modifies saved
      ensures currI == |buf| ==> next == -1 && saved[..] == Aligned(buf[startI..])
      ensures currI < |buf| ==> next == currI + 1 && out == buf[currI] && saved[..] == Aligned([])
    {
      out := 0;
      if currI >= |buf| {
        var toSave := |buf| - startI;
        for k := 0 to toSave
          invariant saved[..12 - toSave] == Aligned([])[..12 - toSave]
          invariant saved[12 - toSave..12 - toSave + k] == buf[startI..startI + k]
        {
          saved[12 - toSave + k] := buf[startI + k];
        }
        assert buf[startI..startI + toSave] == buf[startI..];
        assert saved[..] == saved[..12 - toSave] + saved[12 - toSave..12 - toSave + toSave];
        return -1, 0;
      }
      return currI + 1, buf[currI];
    }

    // One byte of a window size with IAC doubled; -2 when the client should be kicked.
    method GetNawsByteOrSave(buf: seq<u8>, startI: nat, at: nat) returns (next: int, out: u8)
      requires saved.Length == 12 && startI + at <= |buf| && at <= 11 && saved[..] == Aligned([])
      modifies saved
      ensures match ReadNawsByte(buf[startI..], at)
              case ByteShort => next == -1 && saved[..] == Aligned(buf[startI..])
              case ByteMalformed => next == -2
              case NawsByte(value, n) => next == startI + n && out == value && saved[..] == Aligned([])
    {
      next, out := GetByteOrSave(buf, startI, startI + at);
      if next < 0 {
        return;
      }
      if out == IAC {
        next, out := GetByteOrSave(buf, startI, next);
        if next < 0 {
          return;
        }
        if out != IAC {
          next := -2;
        }
      }
    }

    method GetNawsU16OrSave(buf: seq<u8>, startI: nat, at: nat) returns (next: int, out: u16)
      requires saved.Length == 12 && startI + at <= |buf| && at <= 9 && saved[..] == Aligned([])
      modifies saved
      ensures match ReadNumber(buf[startI..], at)
              case Short => next == -1 && saved[..] == Aligned(buf[startI..])
              case Malformed => next == -2
              case Number(value, n) => next == startI + n && out == value && saved[..] == Aligned([])
    {
      out := 0;
      var msb, lsb;
      next, msb := GetNawsByteOrSave(buf, startI, at);
      if next < 0 {
        return;
      }
      next, lsb := GetNawsByteOrSave(buf, startI, next - startI);
      if next < 0 {
        return;
      }
      out := msb as int * 0x100 + lsb;
    }

    // The outcome of a command that stands for an item: saved, the client dropped, or its events, if the terminal
    // takes them.
    ghost predicate Handled(item: Item, before: seq<Event>, buf: seq<u8>, i: nat, currI: int)
      requires saved.Length == 12 && i <= |buf|
      reads this`log, saved
    {
      match item
      case NeedMore => |buf[i..]| <= 12 && currI == -1 && log == before && saved[..] == Aligned(buf[i..])
      case Bad => currI == -2 && log == before
      case Item(events, size) =>
        if |before| + |events| <= limit then currI == i + size && log == before + events && saved[..] == Aligned([])
        else currI == -2 && log == before
    }

    // One write of a byte or `ioctl` on the terminal.
    method Apply(event: Event) returns (ok: bool)
      modifies this`log
      ensures ok == (|old(log)| < limit) && log == if ok then old(log) + [event] else old(log)
    {
      ok := |log| < limit;
      if ok {
        log := log + [event];
      }
    }

    // A window size subnegotiation: lines 216-238.
    method HandleWindow(buf: seq<u8>, i: nat) returns (currI: int)
      requires saved.Length == 12 && i + 3 <= |buf| && saved[..] == Aligned([]) && |log| <= limit
      modifies this`log, saved
      ensures Handled(WindowItem(buf[i..]), old(log), buf, i, currI)
    {
      hide ReadNumber;
      var cols, rows, iac, se;
      currI, cols := GetNawsU16OrSave(buf, i, 3);
      if currI < 0 {
        return;
      }
      currI, rows := GetNawsU16OrSave(buf, i, currI - i);
      if currI < 0 {
        return;
      }
      currI, iac := GetByteOrSave(buf, i, currI);
      if currI < 0 {
        return;
      }
      currI, se := GetByteOrSave(buf, i, currI);
      if currI < 0 {
        return;
      }
      if iac != IAC || se != SE {
        return -2;
      }
      var ok := Apply(WindowSize(cols, rows));
      if !ok {
        return -2;
      }
    }

    // A CR or an IAC at index i: lines 190-250.
    method HandleCommand(buf: seq<u8>, i: nat) returns (currI: int)
      requires saved.Length == 12 && i < |buf| && (buf[i] == CR || buf[i] == IAC) && saved[..] == Aligned([]) &&
               |log| <= limit
      modifies this`log, saved
      ensures Handled(FirstItem(buf[i..]), old(log), buf, i, currI)
    {
      hide WindowItem;
      var followup, opt;
      currI, followup := GetByteOrSave(buf, i, i + 1);
      if currI < 0 {
        return;
      }
      if buf[i] == IAC {
        if NOP <= followup <= GO_AHEAD {
        } else if WILL <= followup <= DONT {
          currI, opt := GetByteOrSave(buf, i, currI);
        } else if followup == IAC {
          var ok := Apply(Output(buf[i]));
          if !ok {
            return -2;
          }
        } else if followup == SB {
          currI, opt := GetByteOrSave(buf, i, currI);
          if currI < 0 {
            return;
          }
          if opt != OPT_NAWS {
            return -2;
          }
          currI := HandleWindow(buf, i);
        } else {
          return -2;
        }
      } else {
        if followup != 0 && followup != LF {
          return -2;
        }
        var ok := Apply(Output(buf[i]));
        if !ok {
          return -2;
        }
      }
    }

    // One read from the client; an empty chunk stands for a closed or failed connection.
    method OnClientFd(chunk: seq<u8>)
      requires Valid() && connected
      modifies this, saved
      ensures Valid()
      ensures stream == old(stream) + chunk && hungUp == (chunk == [])
    {
      hide Decode, FirstItem, Limited;
      ghost var o := Decode(stream);
      RestStart(o.rest);
      var held := TakeSaved(o.rest);
      LimitedSplit(o.events, [], limit);
      assert log == o.events + [] == o.events;
      if chunk == [] {
        connected, hungUp := false, true;
        log := log + [Kick];
        assert stream == old(stream) + chunk;
        return;
      }
      var buf := held + chunk;
      DecodeSplit(stream, chunk);
      RestIsUnfinished(stream + chunk);
      stream := stream + chunk;
      Process(buf);
      assert log + [] == log;
    }

    // Lines 183-187: pass a run of ordinary bytes on to the terminal.
    method WriteRun(buf: seq<u8>, baseI: nat) returns (i: nat, ok: bool)
      requires baseI <= |buf| && |log| <= limit
      modifies this`log
      ensures baseI <= i <= |buf| && (i < |buf| ==> buf[i] == CR || buf[i] == IAC)
      ensures ok ==> |log| <= limit && log == old(log) + Outputs(buf[baseI..i])
      ensures !ok ==> |log| == limit && log < old(log) + Outputs(buf[baseI..i])
      ensures Decode(buf[baseI..]) == Prepend(Outputs(buf[baseI..i]), Decode(buf[i..]))
    {
      hide Decode, Prepend, Outputs;
      i := baseI;
      PrependNothing(buf, baseI);
      while i < |buf| && buf[i] != CR && buf[i] != IAC
        invariant baseI <= i <= |buf| && log == old(log)
        invariant Decode(buf[baseI..]) == Prepend(Outputs(buf[baseI..i]), Decode(buf[i..]))
      {
        PlainByte(buf, baseI, i);
        i := i + 1;
      }
      var toWrite, taken := i - baseI, limit - |log|;
      ok := toWrite <= taken;
      if ok {
        log := log + Outputs(buf[baseI..i]);
      } else {
        log := log + Outputs(buf[baseI..i])[..taken];
      }
    }

    // The loop over the buffer: lines 180-252.
    method Process(buf: seq<u8>)
      requires saved.Length == 12 && connected && saved[..] == Aligned([]) && |log| <= limit
      modifies this`log, this`connected, saved
      ensures var all := old(log) + Decode(buf).events;
              log == Limited(all, limit) && connected == (!Decode(buf).kicked && |all| <= limit)
      ensures connected ==> |Decode(buf).rest| <= 12 && saved[..] == Aligned(Decode(buf).rest)
    {
      hide FirstItem, Decode, Prepend, Outputs, Limited;
      var baseI := 0;
      ghost var done: seq<Event> := [];
      assert buf[0..] == buf;
      PrependEmpty(Decode(buf));
      while true
        invariant 0 <= baseI <= |buf| && saved[..] == Aligned([]) && connected && |log| <= limit
        invariant log == old(log) + done && Decode(buf) == Prepend(done, Decode(buf[baseI..]))
        decreases |buf| - baseI
      {
        var i, ok := WriteRun(buf, baseI);
        ghost var run := Outputs(buf[baseI..i]);
        PrependTwice(done, run, Decode(buf[i..]));
        if !ok {
          Overflow(old(log), done, run, Decode(buf[i..]), log, limit);
          log := log + [Kick];
          connected := false;
          return;
        }
        assert log == old(log) + (done + run);
        done := done + run;
        if i >= |buf| {
          EndOfBuffer(done, buf[i..]);
          LimitedSplit(log, [], limit);
          return;
        }
        ghost var before := log;
        var currI := HandleCommand(buf, i);
        AfterCommand(done, buf, i);
        LimitedSplit(before, [], limit);
        if currI == -1 {
          return;
        }
        if currI == -2 {
          Dropped(old(log), done, buf, i, limit);
          log := log + [Kick];
          connected := false;
          return;
        }
        baseI := currI;
        done := done + FirstItem(buf[i..]).events;
      }
    }
  }

  // A run of bytes that the terminal takes only in part.
  lemma Overflow(start: seq<Event>, done: seq<Event>, run: seq<Event>, o: Outcome, taken: seq<Event>, limit: nat)
    requires |taken| == limit && taken < start + done + run
    ensures var all := start + Prepend(done + run, o).events; Limited(all, limit) == taken + [Kick] && |all| > limit
  {
    hide Limited;
    var all := start + Prepend(done + run, o).events;
    assert all == (start + done + run) + o.events;
    assert all == taken + all[limit..];
    LimitedSplit(taken, all[limit..], limit);
  }

  // A command after which the client is dropped: it is malformed, or the terminal does not take its event.
  lemma Dropped(start: seq<Event>, done: seq<Event>, buf: seq<u8>, i: nat, limit: nat)
    requires i < |buf| && |start + done| <= limit
    ensures var all, item := start + Prepend(done, Decode(buf[i..])).events, FirstItem(buf[i..]);
            item.Bad? || (item.Item? && |start + done| + |item.events| > limit) ==>
              Limited(all, limit) == start + done + [Kick] && (Prepend(done, Decode(buf[i..])).kicked || |all| > limit)
  {
    hide Limited, FirstItem;
    var x, item := start + done, FirstItem(buf[i..]);
    AfterCommand(done, buf, i);
    var all := start + Prepend(done, Decode(buf[i..])).events;
    LimitedSplit(x, [], limit);
    if item.Bad? {
      assert all == x + [Kick];
    } else if item.Item? && |x| + |item.events| > limit {
      AtMostOne(buf[i..]);
      var y := item.events + Decode(buf[i + item.size..]).events;
      assert all == x + y;
      LimitedSplit(x, y, limit);
    }
  }

  lemma AtMostOne(s: seq<u8>)
    ensures FirstItem(s).Item? ==> |FirstItem(s).events| <= 1
  {
    hide ReadNumber;
  }

  ghost function Prepend(events: seq<Event>, o: Outcome): Outcome {
    Outcome(events + o.events, o.rest, o.kicked)
  }

  lemma PrependTwice(a: seq<Event>, b: seq<Event>, o: Outcome)
    ensures Prepend(a, Prepend(b, o)) == Prepend(a + b, o)
  {
    assert a + (b + o.events) == (a + b) + o.events;
  }

  lemma PrependEmpty(o: Outcome)
    ensures Prepend([], o) == o
  {
    assert [] + o.events == o.events;
  }

  lemma PrependNothing(buf: seq<u8>, i: nat)
    requires i <= |buf|
    ensures Prepend(Outputs(buf[i..i]), Decode(buf[i..])) == Decode(buf[i..])
  {
    hide Prepend, Decode;
    assert Outputs(buf[i..i]) == [];
    PrependEmpty(Decode(buf[i..]));
  }

  lemma RestStart(s: seq<u8>)
    requires FirstItem(s).NeedMore?
    ensures |s| <= 12 && (|s| > 0 ==> s[0] != 0)
  {
  }

  function Outputs(s: seq<u8>): (e: seq<Event>)
    ensures |e| == |s|
  {
    seq(|s|, i requires 0 <= i < |s| => Output(s[i]))
  }

  lemma PlainByte(buf: seq<u8>, baseI: nat, i: nat)
    requires baseI <= i < |buf| && buf[i] != CR && buf[i] != IAC
    ensures Prepend(Outputs(buf[baseI..i]), Decode(buf[i..])) ==
            Prepend(Outputs(buf[baseI..i + 1]), Decode(buf[i + 1..]))
  {
    assert buf[i..][1..] == buf[i + 1..];
    assert Decode(buf[i..]) == Prepend([Output(buf[i])], Decode(buf[i + 1..]));
    assert Outputs(buf[baseI..i + 1]) == Outputs(buf[baseI..i]) + [Output(buf[i])];
    hide Prepend, Decode, Outputs;
    PrependTwice(Outputs(buf[baseI..i]), [Output(buf[i])], Decode(buf[i + 1..]));
  }

  lemma EndOfBuffer(done: seq<Event>, s: seq<u8>)
    requires s == []
    ensures Prepend(done, Decode(s)) == Outcome(done, [], false)
  {
    assert done + [] == done;
  }

  lemma AfterCommand(done: seq<Event>, buf: seq<u8>, i: nat)
    requires i < |buf|
    ensures match FirstItem(buf[i..])
            case NeedMore => Prepend(done, Decode(buf[i..])) == Outcome(done, buf[i..], false) && |buf[i..]| <= 12
            case Bad => Prepend(done, Decode(buf[i..])) == Outcome(done + [Kick], [], true)
            case Item(events, size) =>
              0 < size <= |buf| - i && Prepend(done, Decode(buf[i..])) ==
                Prepend(done + events, Decode(buf[i + size..]))
  {
    hide FirstItem;
    var s := buf[i..];
    match FirstItem(s)
    case NeedMore => assert done + [] == done;
    case Bad =>
    case Item(events, size) =>
      assert s[size..] == buf[i + size..];
      PrependTwice(done, events, Decode(s[size..]));
  }

  // A whole session: reads until the chunks run out or the client is gone. What happens does not depend on the cuts.
  method Serve(chunks: seq<seq<u8>>, limit: nat) returns (log: seq<Event>)
    requires forall k :: 0 <= k < |chunks| ==> chunks[k] != []
    ensures log == Limited(Decode(Concat(chunks)).events, limit)
  {
    hide Decode, FirstItem, Limited;
    var server := new Server(limit);
    var k := 0;
    assert [] + Concat(chunks) == Concat(chunks);
    assert chunks[0..] == chunks;
    while k < |chunks| && server.connected
      invariant 0 <= k <= |chunks| && server.Valid() && !server.hungUp && server.limit == limit && fresh(server) &&
                fresh(server.saved)
      invariant server.stream + Concat(chunks[k..]) == Concat(chunks)
    {
      assert Concat(chunks[k..]) == chunks[k] + Concat(chunks[k + 1..]) by {
        assert chunks[k..][1..] == chunks[k + 1..];
      }
      ghost var before := server.stream;
      server.OnClientFd(chunks[k]);
      assert (before + chunks[k]) + Concat(chunks[k + 1..]) == before + (chunks[k] + Concat(chunks[k + 1..]));
      k := k + 1;
    }
    log := server.log;
    if server.connected {
      assert server.stream + [] == server.stream;
    } else {
      var o, t := Decode(server.stream), Concat(chunks[k..]);
      DecodeSplit(server.stream, t);
      LimitedSplit(o.events, Decode(o.rest + t).events, limit);
    }
    assert log + [] == log;
  }

  // A client that sends whole items, cut anywhere: what they stand for is done, in order.
  method ServeItems(xs: seq<ClientItem>, chunks: seq<seq<u8>>, limit: nat) returns (log: seq<Event>)
    requires forall k :: 0 <= k < |xs| ==> IsItem(xs[k])
    requires forall k :: 0 <= k < |chunks| ==> chunks[k] != []
    requires Concat(chunks) == EncodeItems(xs)
    ensures log == Limited(AllEvents(xs), limit)
  {
    hide Decode, Limited, EncodeItems, AllEvents;
    DecodeItems(xs, []);
    log := Serve(chunks, limit);
  }

  // The encoder.

  function EncodeByte(b: u8): seq<u8> {
    if b == CR then [CR, 0] else if b == LF then [CR, LF] else if b == IAC then [IAC, IAC] else [b]
  }

  function Encode(s: seq<u8>): seq<u8> {
    if |s| == 0 then [] else EncodeByte(s[0]) + Encode(s[1..])
  }

  lemma {:induction false} EncodeConcat(s: seq<u8>, t: seq<u8>)
    ensures Encode(s + t) == Encode(s) + Encode(t)
  {
    hide Encode, EncodeByte;
    if |s| == 0 {
      EncodeNothing(s);
      assert s + t == t;
    } else {
      EncodeStep(s);
      EncodeStep(s + t);
      EncodeConcat(s[1..], t);
      assert (s + t)[1..] == s[1..] + t;
    }
  }

  lemma {:induction false} EncodePlain(s: seq<u8>)
    requires forall k :: 0 <= k < |s| ==> s[k] != CR && s[k] != LF && s[k] != IAC
    ensures Encode(s) == s
  {
    if |s| > 0 {
      EncodePlain(s[1..]);
      assert s == [s[0]] + s[1..];
    }
  }

  // The bytes the client takes when there is room for so many.
  function Taken(s: seq<u8>, room: nat): seq<u8> {
    if |s| <= room then s else s[..room]
  }

  // One read from the terminal: lines 87-131. Returns the bytes sent to the client, and whether it was dropped
  // because it did not take all of them.
  method OnPtMasterFd(buf: seq<u8>, connected: bool, room: nat) returns (sent: seq<u8>, kicked: bool)
    ensures !connected ==> sent == [] && !kicked
    ensures connected ==> sent == Taken(Encode(buf), room) && kicked == (|Encode(buf)| > room)
  {
    hide Encode, EncodeByte;
    sent, kicked := [], false;
    if !connected {
      return;
    }
    var baseI := 0;
    EncodeNothing(buf[..0]);
    while true
      invariant 0 <= baseI <= |buf| && sent == Encode(buf[..baseI]) && |sent| <= room
      decreases |buf| - baseI
    {
      var i := baseI;
      while i < |buf| && buf[i] != CR && buf[i] != LF && buf[i] != IAC
        invariant baseI <= i <= |buf|
        invariant forall k :: baseI <= k < i ==> buf[k] != CR && buf[k] != LF && buf[k] != IAC
      {
        i := i + 1;
      }
      EncodePlain(buf[baseI..i]);
      EncodePrefix(buf, baseI, i);
      var toSend, before := i - baseI, |sent|;
      sent := Taken(sent + buf[baseI..i], room);
      if |sent| != before + toSend {
        return sent, true;
      }
      if i >= |buf| {
        assert buf[..i] == buf;
        break;
      }
      var bytes := if buf[i] == CR then [CR, 0] else if buf[i] == LF then [CR, LF] else [IAC, IAC];
      EncodeOne(buf[i]);
      EncodePrefix(buf, i, i + 1);
      assert buf[i..i + 1] == [buf[i]];
      before := |sent|;
      sent := Taken(sent + bytes, room);
      if |sent| != before + 2 {
        return sent, true;
      }
      baseI := i + 1;
    }
  }

  // The encoding of a longer prefix, as part of the whole.
  lemma EncodePrefix(buf: seq<u8>, j: nat, i: nat)
    requires j <= i <= |buf|
    ensures Encode(buf[..i]) == Encode(buf[..j]) + Encode(buf[j..i]) && Encode(buf[..i]) <= Encode(buf)
  {
    hide Encode;
    var x, y, z := buf[..j], buf[j..i], buf[i..];
    assert buf[..i] == x + y && buf == (x + y) + z;
    hide *;
    EncodeConcat(x, y);
    EncodeConcat(x + y, z);
  }

  lemma EncodeNothing(s: seq<u8>)
    requires s == []
    ensures Encode(s) == []
  {
  }

  lemma EncodeOne(b: u8)
    ensures Encode([b]) == EncodeByte(b)
    ensures b == CR ==> EncodeByte(b) == [CR, 0]
    ensures b == LF ==> EncodeByte(b) == [CR, LF]
    ensures b == IAC ==> EncodeByte(b) == [IAC, IAC]
  {
  }

  lemma EncodeByteIs(b: u8)
    ensures b == 13 ==> EncodeByte(b) == [13, 0]
    ensures b == 10 ==> EncodeByte(b) == [13, 10]
    ensures b == 255 ==> EncodeByte(b) == [255, 255]
    ensures b != 13 && b != 10 && b != 255 ==> EncodeByte(b) == [b]
  {
  }

  // What a telnet peer makes of the encoding: LF becomes CR, everything else survives.
  function LineEnds(s: seq<u8>): seq<u8> {
    seq(|s|, i requires 0 <= i < |s| => if s[i] == LF then CR else s[i])
  }

  lemma {:induction false} DecodeEncoded(s: seq<u8>)
    ensures Decode(Encode(s)) == Outcome(Outputs(LineEnds(s)), [], false)
  {
    hide Decode, Encode, EncodeByte;
    if |s| > 0 {
      DecodeEncoded(s[1..]);
      EncodedByte(s[0], Encode(s[1..]));
      EncodeStep(s);
      var e := [Output(if s[0] == LF then CR else s[0])];
      assert LineEnds(s[1..]) == LineEnds(s)[1..];
      assert Outputs(LineEnds(s)) == e + Outputs(LineEnds(s[1..]));
    } else {
      EncodeNothing(s);
      PrependEmpty(Decode([]));
      EndOfBuffer([], []);
      assert Outputs(LineEnds(s)) == [];
    }
  }

  lemma EncodeStep(s: seq<u8>)
    requires |s| > 0
    ensures Encode(s) == EncodeByte(s[0]) + Encode(s[1..])
  {
  }

  lemma EncodedByte(b: u8, t: seq<u8>)
    ensures Decode(EncodeByte(b) + t) == Prepend([Output(if b == LF then CR else b)], Decode(t))
  {
    var s := EncodeByte(b) + t;
    assert FirstItem(s) == Item([Output(if b == LF then CR else b)], |EncodeByte(b)|);
    assert s[|EncodeByte(b)|..] == t;
  }

  // Terminal output read in any pieces, sent, and decoded from any pieces.
  method RoundTrip(pieces: seq<seq<u8>>, chunks: seq<seq<u8>>, limit: nat) returns (log: seq<Event>)
    requires forall k :: 0 <= k < |chunks| ==> chunks[k] != []
    requires Concat(chunks) == EncodeReads(pieces)
    ensures log == Limited(Outputs(LineEnds(Concat(pieces))), limit)
  {
    EncodeReadsIsEncode(pieces);
    DecodeEncoded(Concat(pieces));
    hide *;
    log := Serve(chunks, limit);
  }

  // What the server sends for a sequence of reads.
  function EncodeReads(pieces: seq<seq<u8>>): seq<u8> {
    if |pieces| == 0 then [] else Encode(pieces[0]) + EncodeReads(pieces[1..])
  }

  lemma {:induction false} EncodeReadsIsEncode(pieces: seq<seq<u8>>)
    ensures EncodeReads(pieces) == Encode(Concat(pieces))
  {
    if |pieces| > 0 {
      EncodeReadsIsEncode(pieces[1..]);
      EncodeConcat(pieces[0], Concat(pieces[1..]));
    }
  }
}
