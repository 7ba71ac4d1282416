/** TUIC addresses and commands on the wire (src/tuic/proto.rs and the parser of src/tuic/connection.rs). */
module TuicCodec {
  import opened Bytes

  const VERSION: byte := 5
  const CMD_AUTHENTICATE: byte := 0
  const CMD_CONNECT: byte := 1
  const CMD_PACKET: byte := 2
  const CMD_DISSOCIATE: byte := 3
  const CMD_HEARTBEAT: byte := 4

  const TAG_NONE: byte := 0xff
  const TAG_DOMAIN: byte := 0
  const TAG_IPV4: byte := 1
  const TAG_IPV6: byte := 2

  datatype Address =
    | NoAddress
    | Domain(name: Bytes, port: u16)
    | Ipv4(ip: Bytes, port: u16)
    | Ipv6(segs: seq<u16>, port: u16)
  {
    predicate Valid() {
      (Domain? ==> ValidUtf8(name)) && (Ipv4? ==> |ip| == 4) && (Ipv6? ==> |segs| == 8)
    }
  }

  datatype PacketInfo = PacketInfo(assoc: u16, pkt: u16, fragTotal: byte, fragId: byte, size: u16, addr: Address)

  datatype Command =
    | Authenticate(uuid: Bytes, token: Bytes)
    | Connect(target: Address)
    | Packet(info: PacketInfo)
    | Dissociate(assoc: u16)
    | Heartbeat

  /** A parsed value and the bytes behind it. */
  datatype Got<T> = Got(value: T, rest: Bytes)

  // ---- Addresses ----

  function SegBytes(segs: seq<u16>): (b: Bytes)
    ensures |b| == 2 * |segs|
  {
    if |segs| == 0 then [] else U16(segs[0]) + SegBytes(segs[1..])
  }

  function SegsOf(b: Bytes): (segs: seq<u16>)
    ensures |segs| == |b| / 2
    decreases |b|
  {
    if |b| < 2 then [] else [GetU16(b[0], b[1])] + SegsOf(b[2..])
  }

  /** `to_bytes`; the length of a domain is cast to a byte. */
  function EncodeAddress(a: Address): Bytes {
    match a
    case NoAddress => [TAG_NONE]
    case Domain(name, port) => [TAG_DOMAIN, |name| % 0x100] + name + U16(port)
    case Ipv4(ip, port) => [TAG_IPV4] + ip + U16(port)
    case Ipv6(segs, port) => [TAG_IPV6] + SegBytes(segs) + U16(port)
  }

  function DecodeAddress(d: Bytes): Option<Got<Address>> {
    if |d| == 0 then None
    else if d[0] == TAG_NONE then Some(Got(NoAddress, d[1..]))
    else if d[0] == TAG_DOMAIN then
      if |d| < 2 || |d| < d[1] as int + 4 || !ValidUtf8(d[2..2 + d[1]]) then None
      else Some(Got(Domain(d[2..2 + d[1]], GetU16(d[2 + d[1]], d[3 + d[1]])), d[4 + d[1]..]))
    else if d[0] == TAG_IPV4 then
      if |d| < 7 then None else Some(Got(Ipv4(d[1..5], GetU16(d[5], d[6])), d[7..]))
    else if d[0] == TAG_IPV6 then
      if |d| < 19 then None else Some(Got(Ipv6(SegsOf(d[1..17]), GetU16(d[17], d[18])), d[19..]))
    else None
  }

  method ToBytes(a: Address) returns (v: Bytes)
    ensures v == EncodeAddress(a)
  {
    match a {
      case NoAddress =>
        v := [TAG_NONE];
      case Domain(name, port) =>
        v := [TAG_DOMAIN];
        v := v + [|name| % 0x100];
        v := v + name;
        v := v + U16(port);
      case Ipv4(ip, port) =>
        v := [TAG_IPV4];
        v := v + ip;
        v := v + U16(port);
      case Ipv6(segs, port) =>
        v := [TAG_IPV6];
        for i := 0 to |segs|
          invariant v + SegBytes(segs[i..]) == [TAG_IPV6] + SegBytes(segs)
        {
          Assoc(v, U16(segs[i]), SegBytes(segs[i + 1..]));
          assert segs[i..][1..] == segs[i + 1..];
          v := v + U16(segs[i]);
        }
        assert v + [] == v;
        v := v + U16(port);
    }
  }

  method ReadAddress(r: ByteReader) returns (a: Option<Address>)
    modifies r
    ensures var d := DecodeAddress(old(r.data));
            if d.None? then a == None else a == Some(d.value.value) && r.data == d.value.rest
  {
    ghost var d := r.data;
    var tag := r.ReadExact(1);
    if tag.None? {
      return None;
    }
    if tag.value[0] == TAG_NONE {
      return Some(NoAddress);
    }
    if tag.value[0] == TAG_DOMAIN {
      var len := r.ReadExact(1);
      if len.None? {
        return None;
      }
      var n: nat := len.value[0];
      assert r.data == d[2..];
      var b := r.ReadExact(n + 2);
      if b.None? {
        return None;
      }
      Middle(d, 2, n);
      if !ValidUtf8(b.value[..n]) {
        return None;
      }
      return Some(Domain(b.value[..n], GetU16(b.value[n], b.value[n + 1])));
    }
    if tag.value[0] == TAG_IPV4 {
      var b := r.ReadExact(6);
      if b.None? {
        return None;
      }
      Middle(d, 1, 4);
      return Some(Ipv4(b.value[..4], GetU16(b.value[4], b.value[5])));
    }
    if tag.value[0] == TAG_IPV6 {
      var b := r.ReadExact(18);
      if b.None? {
        return None;
      }
      Middle(d, 1, 16);
      return Some(Ipv6(SegsOf(b.value[..16]), GetU16(b.value[16], b.value[17])));
    }
    a := None;
  }

  /** `n` bytes and a port read at offset `i`. */
  lemma Middle(d: Bytes, i: nat, n: nat)
    requires i + n + 2 <= |d|
    ensures var b := d[i..][..n + 2];
            && b[..n] == d[i..i + n] && b[n] == d[i + n] && b[n + 1] == d[i + n + 1]
            && d[i..][n + 2..] == d[i + n + 2..]
  {
    DropDrop(d, i, n + 2);
  }

  // ---- Commands ----

  function PacketOf(b: Bytes, addr: Address): Command
    requires |b| == 8
  {
    Packet(PacketInfo(GetU16(b[0], b[1]), GetU16(b[2], b[3]), b[4], b[5], GetU16(b[6], b[7]), addr))
  }

  /** `parse_command_with_prefix`: the two prefix bytes are already off the stream. */
  function ParseStream(ver: byte, cmd: byte, d: Bytes): Option<Got<Command>> {
    if ver != VERSION then None
    else if cmd == CMD_AUTHENTICATE then
      if |d| < 48 then None else Some(Got(Authenticate(d[..16], d[16..48]), d[48..]))
    else if cmd == CMD_CONNECT then
      match DecodeAddress(d) case None => None case Some(a) => Some(Got(Connect(a.value), a.rest))
    else if cmd == CMD_PACKET then
      if |d| < 8 then None
      else match DecodeAddress(d[8..]) case None => None case Some(a) => Some(Got(PacketOf(d[..8], a.value), a.rest))
    else if cmd == CMD_DISSOCIATE then
      if |d| < 2 then None else Some(Got(Dissociate(GetU16(d[0], d[1])), d[2..]))
    else if cmd == CMD_HEARTBEAT then Some(Got(Heartbeat, d))
    else None
  }

  /** `read_from_sync` on a datagram: no Connect here. */
  function ParseDatagram(dg: Bytes): Option<Got<Command>> {
    if |dg| < 2 || dg[0] != VERSION then None
    else if dg[1] == CMD_AUTHENTICATE then
      if |dg| < 50 then None else Some(Got(Authenticate(dg[2..18], dg[18..50]), dg[50..]))
    else if dg[1] == CMD_PACKET then
      if |dg| < 10 then None
      else match DecodeAddress(dg[10..])
        case None => None
        case Some(a) => Some(Got(PacketOf(dg[2..10], a.value), a.rest))
    else if dg[1] == CMD_HEARTBEAT then Some(Got(Heartbeat, dg[2..]))
    else if dg[1] == CMD_DISSOCIATE then
      if |dg| < 4 then None else Some(Got(Dissociate(GetU16(dg[2], dg[3])), dg[4..]))
    else None
  }

  method ReadPacket(r: ByteReader) returns (c: Option<Command>)
    modifies r
    ensures var d := ParseStream(VERSION, CMD_PACKET, old(r.data));
            if d.None? then c == None else c == Some(d.value.value) && r.data == d.value.rest
  {
    var b := r.ReadExact(8);
    if b.None? {
      return None;
    }
    var a := ReadAddress(r);
    c := if a.None? then None else Some(PacketOf(b.value, a.value));
  }

  method ReadAuthenticate(r: ByteReader) returns (c: Option<Command>)
    modifies r
    ensures var d := ParseStream(VERSION, CMD_AUTHENTICATE, old(r.data));
            if d.None? then c == None else c == Some(d.value.value) && r.data == d.value.rest
  {
    var b := r.ReadExact(48);
    c := if b.None? then None else Some(Authenticate(b.value[..16], b.value[16..48]));
    assert b.Some? ==> b.value[..16] == old(r.data)[..16] && b.value[16..48] == old(r.data)[16..48];
  }

  method ReadDissociate(r: ByteReader) returns (c: Option<Command>)
    modifies r
    ensures var d := ParseStream(VERSION, CMD_DISSOCIATE, old(r.data));
            if d.None? then c == None else c == Some(d.value.value) && r.data == d.value.rest
  {
    var b := r.ReadExact(2);
    c := if b.None? then None else Some(Dissociate(GetU16(b.value[0], b.value[1])));
  }

  method ParseCommandWithPrefix(ver: byte, cmd: byte, r: ByteReader) returns (c: Option<Command>)
    modifies r
    ensures var d := ParseStream(ver, cmd, old(r.data));
            if d.None? then c == None else c == Some(d.value.value) && r.data == d.value.rest
  {
    if ver != VERSION {
      return None;
    }
    if cmd == CMD_AUTHENTICATE {
      c := ReadAuthenticate(r);
    } else if cmd == CMD_CONNECT {
      var a := ReadAddress(r);
      c := if a.None? then None else Some(Connect(a.value));
    } else if cmd == CMD_PACKET {
      c := ReadPacket(r);
    } else if cmd == CMD_DISSOCIATE {
      c := ReadDissociate(r);
    } else if cmd == CMD_HEARTBEAT {
      c := Some(Heartbeat);
    } else {
      c := None;
    }
  }

  /** The two parsers agree on every input, except that a datagram cannot carry Connect. */
  lemma ParsersAgree(dg: Bytes)
    requires |dg| >= 2
    ensures ParseDatagram(dg) == if dg[1] == CMD_CONNECT then None else ParseStream(dg[0], dg[1], dg[2..])
  {
    var d := dg[2..];
    if |d| >= 8 {
      DropDrop(dg, 2, 8);
      assert d[..8] == dg[2..10];
    }
    if |d| >= 48 {
      DropDrop(dg, 2, 48);
      assert d[..16] == dg[2..18] && d[16..48] == dg[18..50];
    }
    if |d| >= 2 {
      DropDrop(dg, 2, 2);
    }
  }

  /** `n` bytes read at offset 2, behind the prefix. */
  lemma AfterPrefix(d: Bytes, n: nat)
    requires 2 + n <= |d|
    ensures d[2..][..n] == d[2..2 + n] && d[2..][n..] == d[2 + n..]
  {
    DropDrop(d, 2, n);
  }

  /** `read_from_sync`, on a cursor over the datagram. */
  method ReadFromSync(r: ByteReader) returns (c: Option<Command>)
    modifies r
    ensures var d := ParseDatagram(old(r.data));
            if d.None? then c == None else c == Some(d.value.value) && r.data == d.value.rest
  {
    ghost var dg := r.data;
    var hdr := r.ReadExact(2);
    if hdr.None? || hdr.value[0] != VERSION {
      return None;
    }
    var cmd := hdr.value[1];
    if cmd == CMD_AUTHENTICATE {
      var buf := r.ReadExact(48);
      if buf.None? {
        return None;
      }
      AfterPrefix(dg, 48);
      assert buf.value[..16] == dg[2..18] && buf.value[16..48] == dg[18..50];
      c := Some(Authenticate(buf.value[..16], buf.value[16..48]));
    } else if cmd == CMD_PACKET {
      var buf := r.ReadExact(8);
      if buf.None? {
        return None;
      }
      AfterPrefix(dg, 8);
      var addr := ReadAddress(r);
      if addr.None? {
        return None;
      }
      c := Some(PacketOf(buf.value, addr.value));
    } else if cmd == CMD_HEARTBEAT {
      c := Some(Heartbeat);
    } else if cmd == CMD_DISSOCIATE {
      var buf := r.ReadExact(2);
      if buf.None? {
        return None;
      }
      AfterPrefix(dg, 2);
      c := Some(Dissociate(GetU16(buf.value[0], buf.value[1])));
    } else {
      c := None;
    }
  }

  method ReadFromDatagram(dg: Bytes) returns (c: Option<Command>)
    ensures var d := ParseDatagram(dg); c == if d.None? then None else Some(d.value.value)
  {
    var r := new ByteReader(dg);
    c := ReadFromSync(r);
  }

  function BuildPacketHeader(assoc: u16, pkt: u16, addr: Address, len: u16): Bytes {
    [VERSION, CMD_PACKET] + U16(assoc) + U16(pkt) + [1, 0] + U16(len) + EncodeAddress(addr)
  }

  method MakePacketHeader(assoc: u16, pkt: u16, addr: Address, len: u16) returns (buf: Bytes)
    ensures buf == BuildPacketHeader(assoc, pkt, addr, len)
  {
    buf := [VERSION];
    buf := buf + [CMD_PACKET];
    buf := buf + U16(assoc);
    buf := buf + U16(pkt);
    buf := buf + [1];
    buf := buf + [0];
    buf := buf + U16(len);
    var a := ToBytes(addr);
    buf := buf + a;
  }

  /** The packet branch of `handle_datagram`: the payload is found by encoding the parsed address again. */
  method PacketPayload(dg: Bytes) returns (p: Option<Got<PacketInfo>>)
    ensures var d := ParseDatagram(dg);
            if d.Some? && d.value.value.Packet? then p == Some(Got(d.value.value.info, d.value.rest)) else p == None
  {
    var c := ReadFromDatagram(dg);
    if c.None? || !c.value.Packet? {
      return None;
    }
    PayloadIsRest(dg);
    var bytes := ToBytes(c.value.info.addr);
    var hdrLen := 2 + 8 + |bytes|;
    if |dg| < hdrLen {
      return None;
    }
    p := Some(Got(c.value.info, dg[hdrLen..]));
  }

  // ---- Round trips ----

  lemma {:induction false} SegsRoundTrip(segs: seq<u16>)
    ensures SegsOf(SegBytes(segs)) == segs
  {
    if |segs| == 0 {
    } else {
      SegsRoundTrip(segs[1..]);
      var b := SegBytes(segs);
      U16ReadsBack(segs[0]);
      assert b[0] == U16(segs[0])[0] && b[1] == U16(segs[0])[1] && b[2..] == SegBytes(segs[1..]);
      assert segs == [segs[0]] + segs[1..];
    }
  }

  lemma {:induction false} BytesRoundTrip(b: Bytes)
    requires |b| % 2 == 0
    ensures SegBytes(SegsOf(b)) == b
    decreases |b|
  {
    if |b| == 0 {
    } else {
      BytesRoundTrip(b[2..]);
      WordBytes(b[0], b[1]);
      assert SegsOf(b)[1..] == SegsOf(b[2..]);
      assert b == [b[0], b[1]] + b[2..];
    }
  }

  lemma WordBytes(hi: byte, lo: byte)
    ensures U16(GetU16(hi, lo)) == [hi, lo]
  {
  }

  lemma PortBack(a: Bytes, port: u16, rest: Bytes)
    ensures var d := a + U16(port) + rest;
            && |d| == |a| + 2 + |rest| && d[..|a|] == a && GetU16(d[|a|], d[|a| + 1]) == port && d[|a| + 2..] == rest
  {
    U16ReadsBack(port);
    var d := a + U16(port) + rest;
    assert d[|a|] == U16(port)[0] && d[|a| + 1] == U16(port)[1];
  }

  lemma Inner(t: Bytes, b: Bytes, d: Bytes)
    requires |d| >= |t| + |b| && d[..|t| + |b|] == t + b
    ensures d[|t|..|t| + |b|] == b && forall i :: 0 <= i < |t| ==> d[i] == t[i]
  {
    assert d[|t|..|t| + |b|] == d[..|t| + |b|][|t|..];
    assert forall i :: 0 <= i < |t| ==> d[i] == d[..|t| + |b|][i];
  }

  lemma DomainReads(name: Bytes, port: u16, rest: Bytes)
    requires ValidUtf8(name) && |name| < 0x100
    ensures DecodeAddress(EncodeAddress(Domain(name, port)) + rest) == Some(Got(Domain(name, port), rest))
  {
    var t: Bytes := [TAG_DOMAIN, |name|];
    var d := t + name + U16(port) + rest;
    PortBack(t + name, port, rest);
    Inner(t, name, d);
    DomainAt(d, name, port, rest);
    DomainShape(name, port, t);
  }

  lemma DomainShape(name: Bytes, port: u16, t: Bytes)
    requires |name| < 0x100 && t == [TAG_DOMAIN, |name| as byte]
    ensures EncodeAddress(Domain(name, port)) == t + name + U16(port)
  {
  }

  lemma DomainAt(d: Bytes, name: Bytes, port: u16, rest: Bytes)
    requires |d| == 4 + |name| + |rest| && |name| < 0x100 && ValidUtf8(name)
    requires d[0] == TAG_DOMAIN && d[1] == |name| && d[2..2 + |name|] == name
    requires GetU16(d[2 + |name|], d[2 + |name| + 1]) == port && d[2 + |name| + 2..] == rest
    ensures DecodeAddress(d) == Some(Got(Domain(name, port), rest))
  {
  }

  lemma IpReads(a: Address, rest: Bytes)
    requires a.Valid() && (a.Ipv4? || a.Ipv6?)
    ensures DecodeAddress(EncodeAddress(a) + rest) == Some(Got(a, rest))
  {
    var t := if a.Ipv4? then [TAG_IPV4] else [TAG_IPV6];
    var b := if a.Ipv4? then a.ip else SegBytes(a.segs);
    var d := t + b + U16(a.port) + rest;
    PortBack(t + b, a.port, rest);
    Inner(t, b, d);
    if a.Ipv6? {
      SegsRoundTrip(a.segs);
    }
  }

  lemma LongDomain(name: Bytes, port: u16, rest: Bytes)
    requires |name| >= 0x100
    ensures DecodeAddress(EncodeAddress(Domain(name, port)) + rest) != Some(Got(Domain(name, port), rest))
  {
    var d := EncodeAddress(Domain(name, port)) + rest;
    assert d[0] == TAG_DOMAIN && d[1] == |name| % 0x100;
    assert |d[2..2 + |name| % 0x100]| < |name|;
  }

  /** Encoding then decoding is the identity, leaving what follows, exactly when a domain has at most 255 bytes. */
  lemma AddressRoundTripIff(a: Address, rest: Bytes)
    requires a.Valid()
    ensures DecodeAddress(EncodeAddress(a) + rest) == Some(Got(a, rest)) <==> (a.Domain? ==> |a.name| <= 255)
  {
    match a
    case NoAddress => assert ([TAG_NONE] + rest)[1..] == rest;
    case Domain(name, port) =>
      if |name| <= 255 {
        DomainReads(name, port, rest);
      } else {
        LongDomain(name, port, rest);
      }
    case Ipv4(_, _) => IpReads(a, rest);
    case Ipv6(_, _) => IpReads(a, rest);
  }

  lemma Whole(d: Bytes, i: nat, n: nat)
    requires i + n + 2 <= |d|
    ensures d == d[..i] + d[i..i + n] + U16(GetU16(d[i + n], d[i + n + 1])) + d[i + n + 2..]
  {
    WordBytes(d[i + n], d[i + n + 1]);
  }

  lemma DecodedDomain(d: Bytes)
    requires DecodeAddress(d).Some? && d[0] == TAG_DOMAIN
    ensures var g := DecodeAddress(d).value; g.value.Valid() && d == EncodeAddress(g.value) + g.rest
  {
    Whole(d, 2, d[1]);
    assert d[..2] == [TAG_DOMAIN, d[1]];
    DomainShape(d[2..2 + d[1]], GetU16(d[2 + d[1]], d[3 + d[1]]), d[..2]);
  }

  /** Decoding then encoding is the identity on the bytes consumed. */
  lemma DecodeThenEncode(d: Bytes)
    requires DecodeAddress(d).Some?
    ensures var g := DecodeAddress(d).value; g.value.Valid() && d == EncodeAddress(g.value) + g.rest
  {
    if d[0] == TAG_NONE {
      assert d == [d[0]] + d[1..];
    } else if d[0] == TAG_DOMAIN {
      DecodedDomain(d);
    } else if d[0] == TAG_IPV4 {
      Whole(d, 1, 4);
      assert d[..1] == [TAG_IPV4];
    } else {
      Whole(d, 1, 16);
      assert d[..1] == [TAG_IPV6];
      BytesRoundTrip(d[1..17]);
    }
  }

  /** The payload a datagram handler slices off is exactly what the parser left. */
  lemma PayloadIsRest(dg: Bytes)
    requires ParseDatagram(dg).Some? && ParseDatagram(dg).value.value.Packet?
    ensures var g := ParseDatagram(dg).value;
            var hdrLen := 2 + 8 + |EncodeAddress(g.value.info.addr)|;
            hdrLen <= |dg| && dg[hdrLen..] == g.rest
  {
    DecodeThenEncode(dg[10..]);
    var a := DecodeAddress(dg[10..]).value;
    var n := |EncodeAddress(a.value)|;
    DropDrop(dg, 10, n);
    assert (EncodeAddress(a.value) + a.rest)[n..] == a.rest;
  }

  lemma HeaderShape(assoc: u16, pkt: u16, len: u16, tail: Bytes)
    ensures var d := [VERSION, CMD_PACKET] + U16(assoc) + U16(pkt) + [1, 0] + U16(len) + tail;
            && |d| == 10 + |tail| && d[0] == VERSION && d[1] == CMD_PACKET && d[10..] == tail
            && d[2..10] == U16(assoc) + U16(pkt) + [1, 0] + U16(len)
  {
  }

  /** The datagram parser inverts the header builder exactly for the addresses that survive their own encoding. */
  lemma HeaderRoundTripIff(assoc: u16, pkt: u16, addr: Address, len: u16, payload: Bytes)
    requires addr.Valid()
    ensures ParseDatagram(BuildPacketHeader(assoc, pkt, addr, len) + payload)
         == Some(Got(Packet(PacketInfo(assoc, pkt, 1, 0, len, addr)), payload))
       <==> (addr.Domain? ==> |addr.name| <= 255)
  {
    var tail := EncodeAddress(addr) + payload;
    AddressRoundTripIff(addr, payload);
    HeaderShape(assoc, pkt, len, tail);
    var fixed := [VERSION, CMD_PACKET] + U16(assoc) + U16(pkt) + [1, 0] + U16(len);
    Assoc(fixed, EncodeAddress(addr), payload);
    FixedFields(assoc, pkt, len, addr);
  }

  lemma FixedFields(assoc: u16, pkt: u16, len: u16, addr: Address)
    ensures PacketOf(U16(assoc) + U16(pkt) + [1, 0] + U16(len), addr) == Packet(PacketInfo(assoc, pkt, 1, 0, len, addr))
  {
    U16ReadsBack(assoc);
    U16ReadsBack(pkt);
    U16ReadsBack(len);
  }
}
