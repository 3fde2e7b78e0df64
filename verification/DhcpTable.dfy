/** The lease table of the DHCP server, router/router/dhcpServer.c: 215 entries, looked up by hardware address, in
    which a new address takes the place of the entry that was used longest ago. */
module DhcpTable {
  import opened Words

  const FIRST_OCTET: nat := 40
  const NUM_ENTRIES: nat := 255 - FIRST_OCTET

  type Mac = s: seq<u8> | |s| == 6 witness [0, 0, 0, 0, 0, 0]

  // `timeSec` is 0 for an entry that is not in use.
  datatype Entry = Entry(timeSec: nat, mac: Mac)

  datatype Request = Request(mac: Mac, allowCreate: bool, now: nat)

  type Table = t: seq<Entry> | |t| == NUM_ENTRIES witness seq(NUM_ENTRIES, _ => Entry(0, [0, 0, 0, 0, 0, 0]))

  ghost predicate Holds(t: Table, mac: Mac, i: int) {
    0 <= i < NUM_ENTRIES && t[i].mac == mac && forall j :: 0 <= j < i ==> t[j].mac != mac
  }

  ghost predicate Absent(t: Table, mac: Mac) {
    forall j :: 0 <= j < NUM_ENTRIES ==> t[j].mac != mac
  }

  // The first of the entries with the least time.
  ghost predicate Oldest(t: Table, i: int) {
    0 <= i < NUM_ENTRIES &&
    (forall j :: 0 <= j < NUM_ENTRIES ==> t[i].timeSec <= t[j].timeSec) &&
    (forall j :: 0 <= j < i ==> t[i].timeSec < t[j].timeSec)
  }

  // One lookup: an entry found is refreshed, one not found replaces the oldest or is refused.
  ghost predicate Lookup(t: Table, q: Request, t': Table, r: int) {
    if Absent(t, q.mac) then
      if q.allowCreate then Oldest(t, r) && t' == t[r := Entry(q.now, q.mac)] else r == -1 && t' == t
    else Holds(t, q.mac, r) && t' == t[r := Entry(q.now, q.mac)]
  }

  // No index before an entry in use holds its hardware address.
  ghost predicate Sound(t: Table) {
    forall i, j :: 0 <= i < j < NUM_ENTRIES && t[j].timeSec != 0 ==> t[i].mac != t[j].mac
  }

  // Entries in use have different hardware addresses, so different clients have different addresses.
  ghost predicate Distinct(t: Table) {
    forall i, j :: 0 <= i < NUM_ENTRIES && 0 <= j < NUM_ENTRIES && i != j && t[i].timeSec != 0 && t[j].timeSec != 0 ==>
      t[i].mac != t[j].mac
  }

  lemma SoundIsDistinct(t: Table)
    requires Sound(t)
    ensures Distinct(t)
  {
    forall i, j | 0 <= i < NUM_ENTRIES && 0 <= j < NUM_ENTRIES && i != j && t[i].timeSec != 0 && t[j].timeSec != 0
      ensures t[i].mac != t[j].mac
    {
      if i < j {
        assert t[i].mac != t[j].mac;
      } else {
        assert t[j].mac != t[i].mac;
      }
    }
  }

  lemma LookupKeepsSound(t: Table, q: Request, t': Table, r: int)
    requires Sound(t) && Lookup(t, q, t', r)
    ensures Sound(t')
  {
  }

  // No entry in use gives way while another is unused.
  lemma UnusedFirst(t: Table, q: Request, t': Table, r: int)
    requires Lookup(t, q, t', r) && r >= 0 && t[r].mac != q.mac && t[r].timeSec != 0
    ensures forall j :: 0 <= j < NUM_ENTRIES ==> t[j].timeSec != 0
  {
  }

  // Only a request that allows creation changes an address in the table; any other client is refused with -1.
  lemma CreationOnlyIfAllowed(t: Table, q: Request, t': Table, r: int)
    requires Lookup(t, q, t', r) && !q.allowCreate
    ensures |t'| == 215 && forall i :: 0 <= i < 215 ==> t'[i].mac == t[i].mac
    ensures r == -1 <==> forall i :: 0 <= i < 215 ==> t[i].mac != q.mac
    ensures r == -1 ==> t' == t
    ensures r != -1 ==> 0 <= r < 215 && t[r].mac == q.mac && t' == t[r := Entry(q.now, q.mac)]
  {
  }

  // Runs.

  ghost predicate Run(ts: seq<Table>, qs: seq<Request>, rs: seq<int>) {
    |ts| == |qs| + 1 && |rs| == |qs| && forall k :: 0 <= k < |qs| ==> Lookup(ts[k], qs[k], ts[k + 1], rs[k])
  }

  // After init, which leaves the hardware addresses unset, every table of every run is sound.
  lemma {:induction false} RunsAreSound(ts: seq<Table>, qs: seq<Request>, rs: seq<int>, k: nat)
    requires Run(ts, qs, rs) && k < |ts| && forall i :: 0 <= i < NUM_ENTRIES ==> ts[0][i].timeSec == 0
    ensures Sound(ts[k]) && Distinct(ts[k])
  {
    hide Lookup;
    if k > 0 {
      RunsAreSound(ts, qs, rs, k - 1);
      LookupKeepsSound(ts[k - 1], qs[k - 1], ts[k], rs[k - 1]);
    }
    SoundIsDistinct(ts[k]);
  }

  // How long a client keeps its address. Entries are ordered by time, and within one second by index: an entry gives
  // way once all others come later in this order.

  ghost predicate Later(t: Table, i: int, j: int)
    requires 0 <= i < NUM_ENTRIES && 0 <= j < NUM_ENTRIES
  {
    t[j].timeSec > t[i].timeSec || (t[j].timeSec == t[i].timeSec && j > i)
  }

  ghost predicate InUse(t: Table, mac: Mac, i: int) {
    0 <= i < NUM_ENTRIES && Holds(t, mac, i) && t[i].timeSec != 0
  }

  // The clients of the entries that come later than entry i.
  ghost function Newer(t: Table, i: int): set<Mac>
    requires 0 <= i < NUM_ENTRIES
  {
    set j | 0 <= j < NUM_ENTRIES && Later(t, i, j) :: t[j].mac
  }

  lemma OldestIsFirst(t: Table, i: int)
    requires 0 <= i < NUM_ENTRIES
    ensures Oldest(t, i) <==> forall j :: 0 <= j < NUM_ENTRIES && j != i ==> Later(t, i, j)
  {
    if forall j :: 0 <= j < NUM_ENTRIES && j != i ==> Later(t, i, j) {
      forall j | 0 <= j < NUM_ENTRIES
        ensures t[i].timeSec <= t[j].timeSec && (j < i ==> t[i].timeSec < t[j].timeSec)
      {
        assert j == i || Later(t, i, j);
      }
    }
  }

  // If every other entry comes later, the others hold 214 different clients.
  lemma AllLater(t: Table, i: int)
    requires Sound(t) && Oldest(t, i) && t[i].timeSec != 0
    ensures |Newer(t, i)| == NUM_ENTRIES - 1 && t[i].mac !in Newer(t, i)
  {
    SoundIsDistinct(t);
    MacsCount(t, NUM_ENTRIES);
    forall m
      ensures m in Newer(t, i) <==> m in Macs(t, NUM_ENTRIES) - {t[i].mac}
    {
      if m in Macs(t, NUM_ENTRIES) && m != t[i].mac {
        var j := MacsFrom(t, NUM_ENTRIES, m);
        OldestIsFirst(t, i);
        assert Later(t, i, j);
      }
    }
    assert Newer(t, i) == Macs(t, NUM_ENTRIES) - {t[i].mac};
  }

  // No more than 214 other entries.
  lemma NewerSize(t: Table, i: int)
    requires 0 <= i < NUM_ENTRIES && t[i].mac !in Newer(t, i)
    ensures |Newer(t, i)| < NUM_ENTRIES
  {
    MacsSize(t, NUM_ENTRIES);
    SubsetSize(Newer(t, i), Macs(t, NUM_ENTRIES) - {t[i].mac});
  }

  lemma NewerHasOthers(t: Table, i: int)
    requires 0 <= i < NUM_ENTRIES && Sound(t) && InUse(t, t[i].mac, i)
    ensures t[i].mac !in Newer(t, i)
  {
  }

  // Another client's lookup replaces entry i only if 214 others come later, and adds at most itself to them.
  lemma Kept(t: Table, q: Request, t': Table, r: int, i: int)
    requires 0 <= i < NUM_ENTRIES && Lookup(t, q, t', r) && Sound(t) && InUse(t, t[i].mac, i) && q.mac != t[i].mac
    requires |Newer(t, i) + {q.mac}| < NUM_ENTRIES
    ensures r != i && t'[i] == t[i] && InUse(t', t[i].mac, i) && Newer(t', i) <= Newer(t, i) + {q.mac}
  {
    if r == i {
      AllLater(t, i);
    }
  }

  // Conversely, a lookup that allows creation, at a later time, adds the client and loses none as long as it spares
  // entry i.
  lemma Spared(t: Table, q: Request, t': Table, r: int, i: int)
    requires 0 <= i < NUM_ENTRIES && Lookup(t, q, t', r) && q.allowCreate && r != i && q.now > t[i].timeSec
    ensures t'[i] == t[i] && Newer(t, i) + {q.mac} <= Newer(t', i)
  {
    assert Later(t', i, r) && t'[r].mac == q.mac;
    forall j | 0 <= j < NUM_ENTRIES && Later(t, i, j)
      ensures t[j].mac in Newer(t', i)
    {
      if j == r {
        assert t[r].mac == q.mac;
      } else {
        assert Later(t', i, j);
      }
    }
  }

  ghost function Macs(t: Table, n: nat): set<Mac>
    requires n <= NUM_ENTRIES
  {
    if n == 0 then {} else Macs(t, n - 1) + {t[n - 1].mac}
  }

  lemma {:induction false} MacsSize(t: Table, n: nat)
    requires n <= NUM_ENTRIES
    ensures |Macs(t, n)| <= n && forall j :: 0 <= j < n ==> t[j].mac in Macs(t, n)
  {
    if n > 0 {
      MacsSize(t, n - 1);
    }
  }

  lemma {:induction false} MacsFrom(t: Table, n: nat, m: Mac) returns (j: nat)
    requires n <= NUM_ENTRIES && m in Macs(t, n)
    ensures j < n && t[j].mac == m
  {
    if t[n - 1].mac == m {
      j := n - 1;
    } else {
      j := MacsFrom(t, n - 1, m);
    }
  }

  lemma {:induction false} MacsCount(t: Table, n: nat)
    requires n <= NUM_ENTRIES && Distinct(t) && forall j :: 0 <= j < NUM_ENTRIES ==> t[j].timeSec != 0
    ensures |Macs(t, n)| == n && forall j :: 0 <= j < n ==> t[j].mac in Macs(t, n)
  {
    if n > 0 {
      MacsCount(t, n - 1);
      if t[n - 1].mac in Macs(t, n - 1) {
        var j := MacsFrom(t, n - 1, t[n - 1].mac);
        assert false;
      }
    }
  }

  lemma {:induction false} SubsetSize(a: set<Mac>, b: set<Mac>)
    requires a <= b
    ensures |a| <= |b|
  {
    if a != {} {
      var x :| x in a;
      SubsetSize(a - {x}, b - {x});
    }
  }

  ghost function Requested(qs: seq<Request>): set<Mac> {
    if |qs| == 0 then {} else Requested(qs[..|qs| - 1]) + {qs[|qs| - 1].mac}
  }

  // A client keeps its entry through every run of lookups by others, as long as they and those who came later already
  // are fewer than 215, whatever the clock does.
  lemma {:induction false} LeaseKept(ts: seq<Table>, qs: seq<Request>, rs: seq<int>, mac: Mac, i: int)
    requires Run(ts, qs, rs) && Sound(ts[0]) && InUse(ts[0], mac, i)
    requires forall k :: 0 <= k < |qs| ==> qs[k].mac != mac
    requires |Newer(ts[0], i) + Requested(qs)| < NUM_ENTRIES
    ensures Sound(ts[|qs|]) && InUse(ts[|qs|], mac, i) && ts[|qs|][i] == ts[0][i] && i !in rs
    ensures Newer(ts[|qs|], i) <= Newer(ts[0], i) + Requested(qs)
    decreases |qs|
  {
    hide Lookup, Sound, Holds, Newer;
    var n := |qs|;
    if n > 0 {
      var qs', before, last, early := qs[..n - 1], ts[n - 1], qs[n - 1], Newer(ts[0], i);
      SubsetSize(early + Requested(qs'), early + Requested(qs));
      LeaseKept(ts[..n], qs', rs[..n - 1], mac, i);
      HoldsMac(before, mac, i);
      SubsetSize(Newer(before, i) + {last.mac}, early + Requested(qs));
      Kept(before, last, ts[n], rs[n - 1], i);
      LookupKeepsSound(before, last, ts[n], rs[n - 1]);
      assert rs == rs[..n - 1] + [rs[n - 1]];
    }
  }

  lemma {:induction false} SparedRun(ts: seq<Table>, qs: seq<Request>, rs: seq<int>, i: int)
    requires 0 <= i < NUM_ENTRIES && Run(ts, qs, rs) && i !in rs
    requires forall k :: 0 <= k < |qs| ==> qs[k].allowCreate && qs[k].now > ts[0][i].timeSec
    ensures ts[|qs|][i] == ts[0][i] && Newer(ts[0], i) + Requested(qs) <= Newer(ts[|qs|], i)
    decreases |qs|
  {
    hide Lookup, Newer;
    var n := |qs|;
    if n > 0 {
      SparedRun(ts[..n], qs[..n - 1], rs[..n - 1], i);
      Spared(ts[n - 1], qs[n - 1], ts[n], rs[n - 1], i);
    }
  }

  // The bound is exact: once time has moved on, a run of lookups that allow creation replaces the client's entry if and
  // only if those who came later already and those of the run are at least 215.
  lemma LeaseExact(ts: seq<Table>, qs: seq<Request>, rs: seq<int>, mac: Mac, i: int)
    requires Run(ts, qs, rs) && Sound(ts[0]) && InUse(ts[0], mac, i)
    requires forall k :: 0 <= k < |qs| ==> qs[k].mac != mac && qs[k].allowCreate && qs[k].now > ts[0][i].timeSec
    ensures i in rs <==> |Newer(ts[0], i) + Requested(qs)| >= NUM_ENTRIES
  {
    if |Newer(ts[0], i) + Requested(qs)| < NUM_ENTRIES {
      LeaseKept(ts, qs, rs, mac, i);
    } else if i !in rs {
      var last := ts[|qs|];
      hide Lookup, Newer;
      SparedRun(ts, qs, rs, i);
      SparedHolds(ts, qs, rs, mac, i);
      NewerHasOthers(last, i);
      NewerSize(last, i);
      SubsetSize(Newer(ts[0], i) + Requested(qs), Newer(last, i));
    }
  }

  // While entry i is spared, others' lookups leave its client in place.
  lemma {:induction false} SparedHolds(ts: seq<Table>, qs: seq<Request>, rs: seq<int>, mac: Mac, i: int)
    requires Run(ts, qs, rs) && Sound(ts[0]) && InUse(ts[0], mac, i) && i !in rs
    requires forall k :: 0 <= k < |qs| ==> qs[k].mac != mac
    ensures Sound(ts[|qs|]) && InUse(ts[|qs|], mac, i)
    decreases |qs|
  {
    var n := |qs|;
    if n > 0 {
      SparedHolds(ts[..n], qs[..n - 1], rs[..n - 1], mac, i);
      LookupKeepsSound(ts[n - 1], qs[n - 1], ts[n], rs[n - 1]);
    }
  }

  // The whole story: a client is looked up, then others, then the client again, which gets the address it had.
  lemma SameAddress(t: Table, q: Request, r: int, ts: seq<Table>, qs: seq<Request>, rs: seq<int>, again: Request,
                    t': Table, r': int)
    requires Sound(t) && q.now > 0 && r >= 0 && Run(ts, qs, rs) && Lookup(t, q, ts[0], r) &&
             Lookup(ts[|qs|], again, t', r')
    requires forall k :: 0 <= k < |qs| ==> qs[k].mac != q.mac
    requires |Newer(ts[0], r) + Requested(qs)| < NUM_ENTRIES && again.mac == q.mac
    ensures r' == r
  {
    LookupKeepsSound(t, q, ts[0], r);
    assert InUse(ts[0], q.mac, r);
    LeaseKept(ts, qs, rs, q.mac, r);
  }

  // Those who came in the client's own second have to be counted. Clients 0 to 214 are looked up in one second, then
  // client 0 again; one newcomer in the next second takes the place of client 0.

  function Numbered(n: nat): Mac {
    [n % 0x100, 0, 0, 0, 0, 0]
  }

  // The table after the first n of them.
  function Busy(n: nat): Table
    requires n <= NUM_ENTRIES
  {
    seq(NUM_ENTRIES, i requires 0 <= i < NUM_ENTRIES => if i < n then Entry(5, Numbered(i))
        else Entry(0, Numbered(255)))
  }

  lemma BusyRun()
    ensures Run(seq(NUM_ENTRIES + 1, k requires 0 <= k <= NUM_ENTRIES => Busy(k)),
                seq(NUM_ENTRIES, k requires 0 <= k < NUM_ENTRIES => Request(Numbered(k), true, 5)),
                  seq(NUM_ENTRIES, k => k))
    ensures forall i :: 0 <= i < NUM_ENTRIES ==> Busy(0)[i].timeSec == 0
  {
    hide Lookup, Busy;
    BusyStart();
    forall k | 0 <= k < NUM_ENTRIES
      ensures Lookup(Busy(k), Request(Numbered(k), true, 5), Busy(k + 1), k)
    {
      BusyStep(k);
    }
  }

  lemma BusyStart()
    ensures forall i :: 0 <= i < NUM_ENTRIES ==> Busy(0)[i].timeSec == 0
  {
  }

  lemma BusyStep(k: nat)
    requires k < NUM_ENTRIES
    ensures Lookup(Busy(k), Request(Numbered(k), true, 5), Busy(k + 1), k)
  {
    var t, mac := Busy(k), Numbered(k);
    forall j | 0 <= j < NUM_ENTRIES
      ensures t[j].mac != mac
    {
      assert t[j].mac[0] != mac[0];
    }
    assert Absent(t, mac);
    assert Oldest(t, k);
    assert Busy(k + 1) == t[k := Entry(5, mac)];
  }

  lemma OneSecond()
    ensures var t := Busy(NUM_ENTRIES);
            var newcomer := Request(Numbered(NUM_ENTRIES), true, 6);
            var t' := t[0 := Entry(6, newcomer.mac)];
            Lookup(t, Request(Numbered(0), true, 5), t, 0) && Lookup(t, newcomer, t', 0) && Absent(t', Numbered(0)) &&
            |Requested([newcomer])| == 1
  {
    var t, mac := Busy(NUM_ENTRIES), Numbered(NUM_ENTRIES);
    forall j | 0 <= j < NUM_ENTRIES
      ensures t[j].mac != mac && (j > 0 ==> t[j].mac != Numbered(0))
    {
      assert t[j].mac[0] != mac[0] && (j > 0 ==> t[j].mac[0] != Numbered(0)[0]);
    }
    assert mac[0] != Numbered(0)[0];
    assert Holds(t, Numbered(0), 0) && t == t[0 := Entry(5, Numbered(0))];
    assert Absent(t, mac) && Oldest(t, 0);
    var qs := [Request(mac, true, 6)];
    assert Requested(qs[..0]) == {} && Requested(qs) == {mac};
  }

  lemma HoldsMac(t: Table, mac: Mac, i: int)
    requires Holds(t, mac, i)
    ensures 0 <= i < NUM_ENTRIES && t[i].mac == mac
  {
  }

  class Server {
    const entries: array<Entry>

    // Only the times are set; whatever the hardware addresses were stays.
    constructor (memory: seq<Entry>)
      requires |memory| == NUM_ENTRIES
      ensures fresh(entries) && entries.Length == NUM_ENTRIES
      ensures forall i :: 0 <= i < NUM_ENTRIES ==> entries[i] == Entry(0, memory[i].mac)
    {
      entries := new Entry[NUM_ENTRIES](i requires 0 <= i < |memory| => memory[i]);
      new;
      for i := 0 to NUM_ENTRIES
        invariant forall j :: 0 <= j < NUM_ENTRIES ==>
                  entries[j] == if j < i then Entry(0, memory[j].mac) else memory[j]
      {
        entries[i] := entries[i].(timeSec := 0);
      }
    }

    method GetEntry(q: Request) returns (r: int)
      requires entries.Length == NUM_ENTRIES
      modifies entries
      ensures Lookup(old(entries[..]), q, entries[..], r)
    {
      var i := 0;
      var oldestIndex, oldestTimeSec := i, entries[i].timeSec;
      while true
        invariant 0 <= oldestIndex <= i < NUM_ENTRIES && oldestTimeSec == entries[oldestIndex].timeSec
        invariant forall j :: 0 <= j < i ==> entries[j].mac != q.mac
        invariant forall j :: 0 <= j <= i ==> oldestTimeSec <= entries[j].timeSec
        invariant forall j :: 0 <= j < oldestIndex ==> oldestTimeSec < entries[j].timeSec
        invariant entries[..] == old(entries[..])
        decreases NUM_ENTRIES - i
      {
        if q.mac == entries[i].mac {
          assert Holds(entries[..], q.mac, i);
          entries[i] := Entry(q.now, entries[i].mac);
          return i;
        }
        i := i + 1;
        if i == NUM_ENTRIES {
          break;
        }
        if entries[i].timeSec < oldestTimeSec {
          oldestIndex, oldestTimeSec := i, entries[i].timeSec;
        }
      }
      assert Absent(entries[..], q.mac) && Oldest(entries[..], oldestIndex);
      if !q.allowCreate {
        return -1;
      }
      entries[oldestIndex] := Entry(q.now, q.mac);
      return oldestIndex;
    }
  }
}
