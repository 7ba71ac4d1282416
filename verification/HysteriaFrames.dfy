/** The UDP frames of Hysteria2: building, fragmenting and parsing (src/hysteria2/proxy.rs). */
module HysteriaFrames {
  import opened Bytes
  import Varint = HysteriaVarint

  const UDP_MAX_PKT := 65507
  const DATAGRAM_MAX_PAYLOAD := 1100
  const MAX_ADDR_LEN := 2048

  const COLON: byte := 58
  const OPEN_BRACKET: byte := 91
  const CLOSE_BRACKET: byte := 93
  const PLUS: byte := 43
  const ZERO: byte := 48

  datatype UdpFrame = UdpFrame(session: u32, packet: u16, fragId: byte, fragTotal: byte,
                               addr: Bytes, port: u16, payload: Bytes)

  // ---- host:port ----

  datatype HostPort = HostPort(host: Bytes, port: u16)

  datatype Halves = Halves(left: Bytes, right: Bytes)

  /** Split at the last colon. */
  function RSplitOnce(s: Bytes): Option<Halves> {
    if |s| == 0 then None
    else
      var n := |s| - 1;
      if s[n] == COLON then Some(Halves(s[..n], []))
      else match RSplitOnce(s[..n])
        case None => None
        case Some(h) => Some(Halves(h.left, h.right + [s[n]]))
  }

  predicate IsBracket(b: byte) {
    b == OPEN_BRACKET || b == CLOSE_BRACKET
  }

  /** `trim_matches` on square brackets. */
  function TrimBrackets(s: Bytes): Bytes
    decreases |s|
  {
    if |s| == 0 then s
    else if IsBracket(s[0]) then TrimBrackets(s[1..])
    else if IsBracket(s[|s| - 1]) then TrimBrackets(s[..|s| - 1])
    else s
  }

  /** The number a string of decimal digits stands for. */
  function DigitsValue(s: Bytes): Option<nat> {
    if |s| == 0 then Some(0)
    else
      var d := s[|s| - 1];
      match DigitsValue(s[..|s| - 1])
      case None => None
      case Some(v) => if ZERO <= d < ZERO + 10 then Some(v * 10 + (d - ZERO)) else None
  }

  /** `str::parse::<u16>`: an optional plus sign, at least one digit, no overflow. */
  function ParseU16(s: Bytes): Option<u16> {
    var digits := if |s| > 1 && s[0] == PLUS then s[1..] else s;
    if |digits| == 0 then None
    else match DigitsValue(digits)
      case None => None
      case Some(v) => if v < 0x10000 then Some(v) else None
  }

  function SplitHostPort(s: Bytes): Option<HostPort> {
    match RSplitOnce(s)
    case None => None
    case Some(h) =>
      match ParseU16(h.right)
      case None => None
      case Some(port) => Some(HostPort(TrimBrackets(h.left), port))
  }

  function Decimal(n: nat): (s: Bytes)
    ensures |s| > 0
  {
    if n < 10 then [ZERO + n] else Decimal(n / 10) + [ZERO + n % 10]
  }

  /** A socket address; `ip` is the text of the address itself. */
  datatype SocketAddr = V4(ip: Bytes, port: u16) | V6(ip: Bytes, port: u16) {
    predicate Valid() {
      0 < |ip| <= 45 && forall b :: b in ip ==> b < 0x80 && !IsBracket(b)
    }
  }

  function AddrText(a: SocketAddr): Bytes {
    match a
    case V4(ip, port) => ip + [COLON] + Decimal(port)
    case V6(ip, port) => [OPEN_BRACKET] + ip + [CLOSE_BRACKET, COLON] + Decimal(port)
  }

  // ---- Building ----

  function BuildFrame(f: UdpFrame, addrText: Bytes): Bytes
    requires |addrText| < 0x1_0000_0000
  {
    Be(f.session, 4) + U16(f.packet) + [f.fragId, f.fragTotal] + Varint.Encode(|addrText|) + addrText + f.payload
  }

  method BuildSingleUdpFrame(session: u32, packet: u16, fragId: byte, fragTotal: byte, addrText: Bytes, payload: Bytes)
    returns (frame: Bytes)
    requires |addrText| < 0x1_0000_0000
    ensures frame == BuildFrame(UdpFrame(session, packet, fragId, fragTotal, [], 0, payload), addrText)
  {
    var buf := new ByteWriter();
    buf.WriteAll(Be(session, 4));
    buf.WriteAll(U16(packet));
    buf.WriteAll([fragId, fragTotal]);
    Varint.WriteVarint(buf, |addrText|);
    buf.WriteAll(addrText);
    buf.WriteAll(payload);
    assert [] + Be(session, 4) == Be(session, 4);
    frame := buf.sent;
  }

  function BuildUdpFrames(session: u32, packet: u16, src: SocketAddr, payload: Bytes): seq<Bytes>
    requires src.Valid()
  {
    AddrTextShort(src);
    if |payload| <= DATAGRAM_MAX_PAYLOAD
    then [BuildFrame(UdpFrame(session, packet, 0, 1, [], 0, payload), AddrText(src))]
    else
      var chunks := Chunks(payload, DATAGRAM_MAX_PAYLOAD);
      seq(|chunks|, i requires 0 <= i < |chunks| => PieceFrame(session, packet, src, chunks, i))
  }

  /** The frame of piece `i`; both numbers are cast to a byte. */
  function PieceFrame(session: u32, packet: u16, src: SocketAddr, pieces: seq<Bytes>, i: nat): Bytes
    requires src.Valid() && i < |pieces|
  {
    AddrTextShort(src);
    BuildFrame(UdpFrame(session, packet, i % 256, |pieces| % 256, [], 0, pieces[i]), AddrText(src))
  }

  // ---- Parsing ----

  function ParseUdpFrame(data: Bytes): Option<UdpFrame> {
    if |data| < 8 then None
    else match Varint.DecodeShort(data[8..])
      case None => None
      case Some(len) =>
        if len.val == 0 || len.val > MAX_ADDR_LEN || |len.rest| < len.val || !ValidUtf8(len.rest[..len.val]) then None
        else match SplitHostPort(len.rest[..len.val])
          case None => None
          case Some(hp) =>
            Some(UdpFrame(U32(data[..4]), GetU16(data[4], data[5]), data[6], data[7],
                          hp.host, hp.port, len.rest[len.val..]))
  }

  method ParseFrame(bytes: Bytes) returns (frame: Option<UdpFrame>)
    ensures frame == ParseUdpFrame(bytes)
  {
    if |bytes| < 8 {
      return None;
    }
    var data := new ByteReader(bytes);
    var session := data.ReadExact(4);
    var ids := data.ReadExact(4);
    assert data.data == bytes[8..] && ids.value == bytes[4..8];
    var addrLen := Varint.ReadVarintBytes(data);
    if addrLen.None? || addrLen.value == 0 || addrLen.value > MAX_ADDR_LEN {
      return None;
    }
    var addr := data.ReadExact(addrLen.value);
    if addr.None? || !ValidUtf8(addr.value) {
      return None;
    }
    var hp := SplitHostPort(addr.value);
    if hp.None? {
      return None;
    }
    var b := ids.value;
    var host, port := hp.value.host, hp.value.port;
    frame := Some(UdpFrame(U32(session.value), GetU16(b[0], b[1]), b[2], b[3], host, port, data.data));
  }

  // ---- Round trip ----

  lemma {:induction false} DecimalReadsBack(n: nat)
    ensures DigitsValue(Decimal(n)) == Some(n)
    ensures forall b :: b in Decimal(n) ==> ZERO <= b < ZERO + 10
  {
    if n >= 10 {
      DecimalReadsBack(n / 10);
      assert Decimal(n)[..|Decimal(n)| - 1] == Decimal(n / 10);
    } else {
      assert Decimal(n)[..0] == [];
    }
  }

  lemma {:induction false} DecimalShort(n: nat, k: nat)
    requires k > 0 && n < Pow10(k)
    ensures |Decimal(n)| <= k
  {
    if n >= 10 {
      assert k > 1;
      DecimalShort(n / 10, k - 1);
    }
  }

  function Pow10(k: nat): nat {
    if k == 0 then 1 else 10 * Pow10(k - 1)
  }

  lemma PortReadsBack(port: u16)
    ensures ParseU16(Decimal(port)) == Some(port) && |Decimal(port)| <= 5
    ensures forall b :: b in Decimal(port) ==> b != COLON && b < 0x80
  {
    DecimalReadsBack(port);
    assert Decimal(port)[0] in Decimal(port);
    assert Pow10(5) == 100000 by { assert Pow10(2) == 100; assert Pow10(4) == 10000; }
    DecimalShort(port, 5);
  }

  lemma {:induction false} RSplitAt(left: Bytes, right: Bytes)
    requires COLON !in right
    ensures RSplitOnce(left + [COLON] + right) == Some(Halves(left, right))
  {
    var s := left + [COLON] + right;
    var n := |s| - 1;
    if |right| == 0 {
      assert s[..n] == left;
    } else {
      var r := right[..|right| - 1];
      assert s[..n] == left + [COLON] + r;
      RSplitAt(left, r);
      assert right == r + [right[|right| - 1]];
    }
  }

  lemma AddrTextShort(a: SocketAddr)
    requires a.Valid()
    ensures 0 < |AddrText(a)| < 64
  {
    PortReadsBack(a.port);
  }

  lemma TrimText(ip: Bytes)
    requires |ip| > 0 && forall b :: b in ip ==> !IsBracket(b)
    ensures TrimBrackets(ip) == ip && TrimBrackets([OPEN_BRACKET] + ip + [CLOSE_BRACKET]) == ip
  {
    assert ip[0] in ip && ip[|ip| - 1] in ip;
    var a := [OPEN_BRACKET] + ip + [CLOSE_BRACKET];
    assert a[1..] == ip + [CLOSE_BRACKET];
    assert (ip + [CLOSE_BRACKET])[..|ip|] == ip;
  }

  /** The text of a socket address splits back into its address and its port. */
  lemma AddrTextSplits(a: SocketAddr)
    requires a.Valid()
    ensures SplitHostPort(AddrText(a)) == Some(HostPort(a.ip, a.port)) && ValidUtf8(AddrText(a))
  {
    PortReadsBack(a.port);
    TrimText(a.ip);
    var d := Decimal(a.port);
    var left := if a.V4? then a.ip else [OPEN_BRACKET] + a.ip + [CLOSE_BRACKET];
    AddrTextShape(a, left, d);
    RSplitAt(left, d);
    AsciiIsUtf8(AddrText(a));
  }

  lemma AddrTextShape(a: SocketAddr, left: Bytes, d: Bytes)
    requires a.Valid() && d == Decimal(a.port) && forall b :: b in d ==> b < 0x80
    requires left == if a.V4? then a.ip else [OPEN_BRACKET] + a.ip + [CLOSE_BRACKET]
    ensures AddrText(a) == left + [COLON] + d && forall b :: b in AddrText(a) ==> b < 0x80
  {
    assert left + [COLON] + d == left + ([COLON] + d);
  }

  lemma HeaderBytes(f: UdpFrame, tail: Bytes)
    ensures var d := Be(f.session, 4) + U16(f.packet) + [f.fragId, f.fragTotal] + tail;
            && |d| >= 8 && d[..4] == Be(f.session, 4) && d[8..] == tail
            && GetU16(d[4], d[5]) == f.packet && d[6] == f.fragId && d[7] == f.fragTotal
            && U32(d[..4]) == f.session
  {
    Varint.Powers();
    FromBeInvertsBe(f.session, 4);
    var d := Be(f.session, 4) + U16(f.packet) + [f.fragId, f.fragTotal] + tail;
    assert d[4] == U16(f.packet)[0] && d[5] == U16(f.packet)[1];
  }

  /** With any address text a two-byte length can announce, a frame parses back exactly if the text has 1 to 2048 bytes,
      is UTF-8 and ends in a port. */
  lemma BuiltFrameParsesIff(f: UdpFrame, text: Bytes)
    requires |text| < 16384
    ensures var hp := SplitHostPort(text);
            ParseUdpFrame(BuildFrame(f, text))
            == if 1 <= |text| <= 2048 && ValidUtf8(text) && hp.Some?
               then Some(f.(addr := hp.value.host, port := hp.value.port)) else None
  {
    var tail := Varint.Encode(|text|) + (text + f.payload);
    HeaderBytes(f, tail);
    FrameShape(f, text);
    Varint.ShortRoundTripIff(|text|, text + f.payload);
    assert (text + f.payload)[..|text|] == text && (text + f.payload)[|text|..] == f.payload;
  }

  /** A frame parses back to what it was built from, the host without its brackets. */
  lemma FrameRoundTrip(f: UdpFrame, a: SocketAddr)
    requires a.Valid()
    ensures |AddrText(a)| < 64
    ensures ParseUdpFrame(BuildFrame(f, AddrText(a))) == Some(f.(addr := a.ip, port := a.port))
  {
    AddrTextShort(a);
    AddrTextSplits(a);
    BuiltFrameParsesIff(f, AddrText(a));
  }

  lemma FrameShape(f: UdpFrame, text: Bytes)
    requires |text| < 0x1_0000_0000
    ensures BuildFrame(f, text)
         == Be(f.session, 4) + U16(f.packet) + [f.fragId, f.fragTotal] + (Varint.Encode(|text|) + (text + f.payload))
  {
    var head := Be(f.session, 4) + U16(f.packet) + [f.fragId, f.fragTotal];
    var len := Varint.Encode(|text|);
    Assoc(head, len, text);
    Assoc(head, len + text, f.payload);
    Assoc(len, text, f.payload);
  }

  // ---- Fragments ----

  /** The pieces a payload is sent in. */
  function Pieces(payload: Bytes): (p: seq<Bytes>) {
    if |payload| <= DATAGRAM_MAX_PAYLOAD then [payload] else Chunks(payload, DATAGRAM_MAX_PAYLOAD)
  }

  lemma {:induction false} ChunksCount(b: Bytes, n: nat)
    requires n > 0
    ensures |Chunks(b, n)| == (|b| + n - 1) / n
    decreases |b|
  {
    if |b| > n {
      ChunksCount(b[n..], n);
      StepDown(|b| + n - 1, n);
    } else if |b| > 0 {
      DivMod(|b| + n - 1, n, 1, |b| - 1);
    } else {
      DivMod(n - 1, n, 0, n - 1);
    }
  }

  lemma StepDown(x: nat, n: nat)
    requires n > 0 && x >= n
    ensures x / n == (x - n) / n + 1
  {
    DivModBack(x - n, n);
    DivMod(x, n, (x - n) / n + 1, (x - n) % n);
  }

  /** A UDP packet is cut into at most 60 pieces, which fit in a byte and join to the packet again. */
  lemma PiecesFit(payload: Bytes)
    requires |payload| <= UDP_MAX_PKT
    ensures 1 <= |Pieces(payload)| <= 60 && Concat(Pieces(payload)) == payload
    ensures |payload| > DATAGRAM_MAX_PAYLOAD ==> |Pieces(payload)| >= 2
  {
    if |payload| <= DATAGRAM_MAX_PAYLOAD {
      assert Concat([payload]) == payload + Concat([]);
    } else {
      ChunksCount(payload, DATAGRAM_MAX_PAYLOAD);
      ChunksJoin(payload, DATAGRAM_MAX_PAYLOAD);
    }
  }

  /** Frame `i` of a packet, parsed. */
  lemma BuiltFrameParses(session: u32, packet: u16, src: SocketAddr, payload: Bytes, i: nat)
    requires src.Valid() && |payload| <= UDP_MAX_PKT && i < |Pieces(payload)|
    ensures |Pieces(payload)| <= 60 && |BuildUdpFrames(session, packet, src, payload)| == |Pieces(payload)|
    ensures ParseUdpFrame(BuildUdpFrames(session, packet, src, payload)[i])
         == Some(UdpFrame(session, packet, i, |Pieces(payload)|, src.ip, src.port, Pieces(payload)[i]))
  {
    PiecesFit(payload);
    BuiltFrameIs(session, packet, src, payload, i);
    FrameRoundTrip(UdpFrame(session, packet, i, |Pieces(payload)|, [], 0, Pieces(payload)[i]), src);
  }

  lemma BuiltFrameIs(session: u32, packet: u16, src: SocketAddr, payload: Bytes, i: nat)
    requires src.Valid() && i < |Pieces(payload)| <= 60
    ensures |AddrText(src)| < 64 && |BuildUdpFrames(session, packet, src, payload)| == |Pieces(payload)|
    ensures BuildUdpFrames(session, packet, src, payload)[i]
         == BuildFrame(UdpFrame(session, packet, i, |Pieces(payload)|, [], 0, Pieces(payload)[i]), AddrText(src))
  {
    AddrTextShort(src);
    var frames := BuildUdpFrames(session, packet, src, payload);
    assert i % 256 == i && |Pieces(payload)| % 256 == |Pieces(payload)|;
    if |payload| > DATAGRAM_MAX_PAYLOAD {
      assert frames[i] == PieceFrame(session, packet, src, Pieces(payload), i);
    }
  }
}
