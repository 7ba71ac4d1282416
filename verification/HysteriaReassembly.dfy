/** Reassembly of fragmented UDP packets: the fragment table and `relay_frame` (src/hysteria2/proxy.rs). */
module HysteriaReassembly {
  import opened Bytes
  import opened HysteriaFrames

  /** A packet for the UDP socket, with the host and port it goes to. */
  datatype Datagram = Datagram(payload: Bytes, addr: Bytes, port: u16) {
    /** The target as the socket is given it: an IPv6 host has lost its brackets by now. */
    function Target(): Bytes { addr + [COLON] + Decimal(port) }
  }

  /** A call of `send_to`. */
  datatype Sent = Sent(payload: Bytes, target: Bytes)

  function Sends(ds: seq<Datagram>): seq<Sent> {
    seq(|ds|, i requires 0 <= i < |ds| => Sent(ds[i].payload, ds[i].Target()))
  }

  /** Split at its last colon, the target is the host and the port again, IPv6 hosts included. */
  lemma TargetSplits(a: SocketAddr, payload: Bytes)
    requires a.Valid()
    ensures SplitHostPort(Datagram(payload, a.ip, a.port).Target()) == Some(HostPort(a.ip, a.port))
  {
    PortReadsBack(a.port);
    TrimText(a.ip);
    RSplitAt(a.ip, Decimal(a.port));
  }

  /** The value of a `FragBuffer`. */
  datatype Frag = Frag(total: byte, received: nat, frags: map<byte, Bytes>, addr: Bytes, port: u16)

  /** The members of `keys` from `lo` on, in ascending order. */
  function SortedIds(keys: set<byte>, lo: nat): seq<byte>
    decreases 256 - lo
  {
    if lo >= 256 then [] else (if lo in keys then [lo as byte] else []) + SortedIds(keys, lo + 1)
  }

  function Gather(frags: map<byte, Bytes>, ids: seq<byte>): Bytes
    requires forall id :: id in ids ==> id in frags
  {
    if |ids| == 0 then [] else frags[ids[0]] + Gather(frags, ids[1..])
  }

  lemma {:induction false} SortedIdsAreKeys(keys: set<byte>, lo: nat)
    ensures forall id :: id in SortedIds(keys, lo) ==> id in keys
    decreases 256 - lo
  {
    if lo >= 256 {
    } else {
      SortedIdsAreKeys(keys, lo + 1);
    }
  }

  function Assemble(frags: map<byte, Bytes>): Bytes {
    SortedIdsAreKeys(frags.Keys, 0);
    Gather(frags, SortedIds(frags.Keys, 0))
  }

  /** The first payload under an id is kept, but every fragment counts. */
  function Add(f: Frag, id: byte, payload: Bytes): Frag {
    f.(frags := if id in f.frags then f.frags else f.frags[id := payload], received := f.received + 1)
  }

  function Finished(f: Frag): Option<Datagram> {
    if f.received >= f.total then Some(Datagram(Assemble(f.frags), f.addr, f.port)) else None
  }

  type Table = map<u16, Frag>

  datatype Outcome = Outcome(table: Table, out: seq<Datagram>)

  function EntryFor(table: Table, f: UdpFrame): Frag {
    if f.packet in table then table[f.packet] else Frag(f.fragTotal, 0, map[], f.addr, f.port)
  }

  /** What `relay_frame` does with one frame. */
  function Relay(table: Table, f: UdpFrame): Outcome {
    if f.fragTotal <= 1 then Outcome(table, [Datagram(f.payload, f.addr, f.port)])
    else
      var g := Add(EntryFor(table, f), f.fragId, f.payload);
      match Finished(g)
      case None => Outcome(table[f.packet := g], [])
      case Some(d) => Outcome(table - {f.packet}, [d])
  }

  // ---- The objects ----

  class FragBuffer {
    var total: byte
    var received: byte
    var frags: map<byte, Bytes>
    var addr: Bytes
    var port: u16

    ghost function View(): Frag
      reads this
    {
      Frag(total, received, frags, addr, port)
    }

    constructor (total: byte, addr: Bytes, port: u16)
      ensures View() == Frag(total, 0, map[], addr, port)
    {
      this.total, this.received, this.frags, this.addr, this.port := total, 0, map[], addr, port;
    }

    method Insert(fragId: byte, payload: Bytes) returns (r: Option<Datagram>)
      requires received < 255
      modifies this
      ensures View() == Add(old(View()), fragId, payload) && r == Finished(View())
    {
      if fragId !in frags {
        frags := frags[fragId := payload];
      }
      received := received + 1;
      if received >= total {
        var buf := GatherAll(frags);
        r := Some(Datagram(buf, addr, port));
      } else {
        r := None;
      }
    }
  }

  method GatherAll(frags: map<byte, Bytes>) returns (buf: Bytes)
    ensures buf == Assemble(frags)
  {
    var ids := SortKeys(frags.Keys);
    SortedIdsAreKeys(frags.Keys, 0);
    buf := [];
    for i := 0 to |ids|
      invariant buf + Gather(frags, ids[i..]) == Gather(frags, ids)
    {
      Assoc(buf, frags[ids[i]], Gather(frags, ids[i + 1..]));
      assert ids[i..][1..] == ids[i + 1..];
      buf := buf + frags[ids[i]];
    }
    assert buf + [] == buf;
  }

  method SortKeys(keys: set<byte>) returns (ids: seq<byte>)
    ensures ids == SortedIds(keys, 0)
  {
    ids := [];
    var lo := 256;
    while lo > 0
      invariant 0 <= lo <= 256 && ids == SortedIds(keys, lo)
    {
      lo := lo - 1;
      ids := (if lo in keys then [lo as byte] else []) + ids;
    }
  }

  lemma Overwrite<K, V>(m: map<K, V>, k: K, a: V, b: V)
    ensures m[k := a][k := b] == m[k := b]
  {
  }

  lemma Removed<K, V>(m: map<K, V>, k: K, a: V)
    ensures m[k := a] - {k} == m - {k}
  {
  }

  /** The part of a UDP session that `relay_frame` works on. */
  class UdpRelay {
    var fragTable: map<u16, FragBuffer>
    var sent: seq<Sent>

    ghost predicate Valid()
      reads this
    {
      forall p, q :: p in fragTable && q in fragTable && p != q ==> fragTable[p] != fragTable[q]
    }

    ghost function View(): Table
      reads this, fragTable.Values
    {
      map p | p in fragTable :: fragTable[p].View()
    }

    constructor ()
      ensures Valid() && View() == map[] && sent == []
    {
      fragTable, sent := map[], [];
    }

    /** `entry(..).or_insert_with(..)` */
    method Entry(frame: UdpFrame) returns (buf: FragBuffer)
      requires Valid()
      modifies this`fragTable
      ensures Valid() && fragTable == old(fragTable)[frame.packet := buf]
      ensures buf.View() == EntryFor(old(View()), frame)
      ensures buf in old(fragTable.Values) || fresh(buf)
      ensures View() == old(View())[frame.packet := buf.View()]
    {
      if frame.packet in fragTable {
        buf := fragTable[frame.packet];
        assert View()[frame.packet] == buf.View();
      } else {
        buf := new FragBuffer(frame.fragTotal, frame.addr, frame.port);
        fragTable := fragTable[frame.packet := buf];
      }
    }

    method Fill(buf: FragBuffer, frame: UdpFrame) returns (done: Option<Datagram>)
      requires Valid() && frame.packet in fragTable && fragTable[frame.packet] == buf && buf.received < 255
      modifies buf
      ensures Valid() && View() == old(View())[frame.packet := buf.View()]
      ensures buf.View() == Add(old(buf.View()), frame.fragId, frame.payload) && done == Finished(buf.View())
    {
      done := buf.Insert(frame.fragId, frame.payload);
      forall p | p in fragTable && p != frame.packet
        ensures fragTable[p].View() == old(View())[p]
      {
        assert fragTable[p] != buf;
      }
    }

    method Finish(packet: u16, d: Datagram)
      requires Valid()
      modifies this
      ensures Valid() && fragTable == old(fragTable) - {packet} && View() == old(View()) - {packet}
      ensures sent == old(sent) + Sends([d])
    {
      fragTable := fragTable - {packet};
      sent := sent + [Sent(d.payload, d.Target())];
    }

    method Collect(frame: UdpFrame) returns (done: Option<Datagram>)
      requires Valid() && EntryFor(View(), frame).received < 255
      modifies this`fragTable, fragTable.Values
      ensures Valid() && forall b :: b in fragTable.Values ==> b in old(fragTable.Values) || fresh(b)
      ensures var g := Add(EntryFor(old(View()), frame), frame.fragId, frame.payload);
              View() == old(View())[frame.packet := g] && done == Finished(g)
    {
      ghost var before := View();
      var buf := Entry(frame);
      ghost var entry := buf.View();
      done := Fill(buf, frame);
      Overwrite(before, frame.packet, entry, buf.View());
    }

    method RelayFrame(frame: UdpFrame)
      requires Valid() && TableOk(View())
      modifies this, fragTable.Values
      ensures Valid() && forall b :: b in fragTable.Values ==> b in old(fragTable.Values) || fresh(b)
      ensures var o := Relay(old(View()), frame); View() == o.table && sent == old(sent) + Sends(o.out)
      ensures TableOk(View())
    {
      RelayKeepsTable(View(), frame);
      if frame.fragTotal <= 1 {
        sent := sent + [Sent(frame.payload, Datagram(frame.payload, frame.addr, frame.port).Target())];
      } else {
        RelayFragment(frame);
      }
    }

    method RelayFragment(frame: UdpFrame)
      requires Valid() && frame.fragTotal > 1 && EntryFor(View(), frame).received < 255
      modifies this, fragTable.Values
      ensures Valid() && forall b :: b in fragTable.Values ==> b in old(fragTable.Values) || fresh(b)
      ensures var o := Relay(old(View()), frame); View() == o.table && sent == old(sent) + Sends(o.out)
    {
      ghost var g := Add(EntryFor(View(), frame), frame.fragId, frame.payload);
      Removed(View(), frame.packet, g);
      var done := Collect(frame);
      if done.Some? {
        Finish(frame.packet, done.value);
      }
    }
  }

  // ---- Any frames at all ----

  /** Between steps an entry has received something, is not complete, and holds no more fragments than it counted. */
  ghost predicate TableOk(t: Table) {
    forall p :: p in t ==> 1 <= t[p].received < t[p].total && |t[p].frags| <= t[p].received
  }

  lemma AddCounts(f: Frag, id: byte, payload: Bytes)
    requires |f.frags| <= f.received
    ensures |Add(f, id, payload).frags| <= f.received + 1
  {
  }

  /** Duplicates and malformed fragment numbers included; the 8-bit counter has room for every frame. */
  lemma RelayKeepsTable(t: Table, f: UdpFrame)
    requires TableOk(t)
    ensures TableOk(Relay(t, f).table) && EntryFor(t, f).received < 255
  {
    var e := EntryFor(t, f);
    AddCounts(e, f.fragId, f.payload);
  }

  function RunFrames(fs: seq<UdpFrame>): Outcome {
    if |fs| == 0 then Outcome(map[], [])
    else
      var o := RunFrames(fs[..|fs| - 1]);
      var s := Relay(o.table, fs[|fs| - 1]);
      Outcome(s.table, o.out + s.out)
  }

  /** After any sequence of frames: no entry is complete, so an entry leaves the table in the step it completes. */
  lemma {:induction false} RunKeepsTable(fs: seq<UdpFrame>)
    ensures TableOk(RunFrames(fs).table)
  {
    if |fs| == 0 {
    } else {
      RunKeepsTable(fs[..|fs| - 1]);
      RelayKeepsTable(RunFrames(fs[..|fs| - 1]).table, fs[|fs| - 1]);
    }
  }
}
