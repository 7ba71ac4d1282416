/** The wire of each protocol, position by position and on literal values. */
module WireLayouts {
  import opened Bytes
  import opened AeadLaws
  import Anytls = AnytlsSession
  import Der = RealityDer
  import DerProofs = RealityDerProofs
  import Hello = RealityKeyShare
  import Hysteria = HysteriaFrames
  import Shadowsocks = ShadowsocksAead
  import Tuic = TuicCodec
  import Varint = HysteriaVarint
  import Vmess = VmessChunks

  // ---- Numbers ----

  /** The two bytes at `i`, the first one high. */
  function Two(b: Bytes, i: nat): nat
    requires i + 1 < |b|
  {
    b[i] as int * 256 + b[i + 1]
  }

  function Four(b: Bytes, i: nat): nat
    requires i + 3 < |b|
  {
    Two(b, i) * 65536 + Two(b, i + 2)
  }

  lemma U16Iff(v: u16, b: Bytes)
    ensures b == U16(v) <==> |b| == 2 && Two(b, 0) == v
  {
    if |b| == 2 && Two(b, 0) == v {
      assert b == [b[0], b[1]];
    }
  }

  lemma FromBeFour(b: Bytes)
    requires |b| == 4
    ensures FromBe(b) == Four(b, 0)
  {
    assert b[..3][..2] == b[..2] && b[..2][..1] == b[..1] && b[..1][..0] == [];
    assert b[..3][2] == b[2] && b[..2][1] == b[1] && b[..1][0] == b[0];
    FromBeEach(b);
  }

  lemma FromBeEach(b: Bytes)
    requires |b| == 4 && b[..3][..2] == b[..2] && b[..2][..1] == b[..1] && b[..1][..0] == []
    ensures FromBe(b) == ((b[0] as int * 256 + b[1]) * 256 + b[2]) * 256 + b[3]
  {
    assert FromBe(b[..1]) == b[0];
    assert FromBe(b[..2]) == FromBe(b[..1]) * 256 + b[1];
    assert FromBe(b[..3]) == FromBe(b[..2]) * 256 + b[2];
  }

  lemma Be4Iff(v: u32, b: Bytes)
    ensures b == Be(v, 4) <==> |b| == 4 && Four(b, 0) == v
    ensures |b| == 4 ==> U32(b) == Four(b, 0)
  {
    Pow256Of4();
    FromBeInvertsBe(v, 4);
    FromBeFour(Be(v, 4));
    if |b| == 4 {
      BeInvertsFromBe(b);
      FromBeFour(b);
    }
  }

  /** Bit `i` of a number. */
  function Bit(v: nat, i: nat): nat {
    if i == 0 then v % 2 else Bit(v / 2, i - 1)
  }

  lemma OddIff(a: nat, b: nat)
    ensures (a + b) % 2 == 1 <==> a % 2 != b % 2
  {
  }

  lemma {:induction false} XorBitIff(a: nat, b: nat, n: nat, i: nat)
    requires i < n
    ensures Bit(XorBits(a, b, n), i) == 1 <==> Bit(a, i) != Bit(b, i)
  {
    BitOnTop((a + b) % 2, XorBits(a / 2, b / 2, n - 1));
    OddIff(a, b);
    if i > 0 {
      XorBitIff(a / 2, b / 2, n - 1, i - 1);
    }
  }

  /** Exclusive or sets exactly the bits that differ. */
  lemma Xor16Iff(a: u16, b: u16, i: nat)
    requires i < 16
    ensures Bit(Xor16(a, b), i) == 1 <==> Bit(a, i) != Bit(b, i)
  {
    XorBitIff(a, b, 16, i);
  }

  // ---- UTF-8 ----

  predicate Scalar(c: nat) {
    c < 0xD800 || 0xE000 <= c < 0x110000
  }

  function Utf8(c: nat): (b: Bytes)
    requires Scalar(c)
    ensures 1 <= |b| <= 4
  {
    if c < 0x80 then [c]
    else if c < 0x800 then [0xC0 + c / 64, 0x80 + c % 64]
    else if c < 0x10000 then [0xE0 + c / 4096, 0x80 + c / 64 % 64, 0x80 + c % 64]
    else [0xF0 + c / 262144, 0x80 + c / 4096 % 64, 0x80 + c / 64 % 64, 0x80 + c % 64]
  }

  lemma Digits64(q: nat, r: nat)
    requires r < 64
    ensures (q * 64 + r) / 64 == q && (q * 64 + r) % 64 == r
  {
  }

  /** The character whose encoding is at the head of `s`. */
  lemma HeadIsScalar(s: Bytes) returns (c: nat)
    requires |s| > 0 && Utf8Head(s) > 0
    ensures Scalar(c) && Utf8(c) == s[..Utf8Head(s)]
  {
    var n := Utf8Head(s);
    if n == 1 {
      c := s[0];
    } else if n == 2 {
      c := TwoBytes(s[0], s[1]);
    } else if n == 3 {
      c := ThreeBytes(s[0], s[1], s[2]);
    } else {
      c := FourBytes(s[0], s[1], s[2], s[3]);
    }
  }

  lemma TwoBytes(a: byte, b: byte) returns (c: nat)
    requires 0xC2 <= a < 0xE0 && Cont(b)
    ensures Scalar(c) && Utf8(c) == [a, b]
  {
    c := (a - 0xC0) * 64 + (b - 0x80);
    Digits64(a - 0xC0, b - 0x80);
  }

  lemma ThreeBytes(a: byte, b: byte, d: byte) returns (c: nat)
    requires 0xE0 <= a < 0xF0 && Cont(b) && Cont(d) && (a == 0xE0 ==> b >= 0xA0) && (a == 0xED ==> b < 0xA0)
    ensures Scalar(c) && Utf8(c) == [a, b, d]
  {
    var q := (a - 0xE0) * 64 + (b - 0x80);
    c := q * 64 + (d - 0x80);
    Digits64(a - 0xE0, b - 0x80);
    Digits64(q, d - 0x80);
    assert c / 4096 == q / 64;
  }

  lemma FourBytes(a: byte, b: byte, d: byte, e: byte) returns (c: nat)
    requires 0xF0 <= a < 0xF5 && Cont(b) && Cont(d) && Cont(e)
    requires (a == 0xF0 ==> b >= 0x90) && (a == 0xF4 ==> b < 0x90)
    ensures Scalar(c) && Utf8(c) == [a, b, d, e]
  {
    var p := (a - 0xF0) * 64 + (b - 0x80);
    var q := p * 64 + (d - 0x80);
    c := q * 64 + (e - 0x80);
    Digits64(a - 0xF0, b - 0x80);
    Digits64(p, d - 0x80);
    Digits64(q, e - 0x80);
    assert c / 4096 == p && c / 262144 == p / 64;
  }

  lemma ScalarIsHead(c: nat, s: Bytes)
    requires Scalar(c) && Utf8(c) <= s
    ensures |s| > 0 && Utf8Head(s) == |Utf8(c)|
  {
    var u := Utf8(c);
    assert forall i :: 0 <= i < |u| ==> s[i] == u[i];
  }

  function Utf8Text(cs: seq<nat>): Bytes
    requires forall c :: c in cs ==> Scalar(c)
  {
    if |cs| == 0 then [] else Utf8(cs[0]) + Utf8Text(cs[1..])
  }

  /** A string is valid exactly when it is the UTF-8 of some characters: here are they. */
  lemma {:induction false} ValidIsText(s: Bytes) returns (cs: seq<nat>)
    requires ValidUtf8(s)
    ensures (forall c :: c in cs ==> Scalar(c)) && s == Utf8Text(cs)
  {
    cs := [];
    if |s| > 0 {
      var c := HeadIsScalar(s);
      var more := ValidIsText(s[Utf8Head(s)..]);
      cs := [c] + more;
      assert cs[1..] == more;
    }
  }

  lemma {:induction false} TextIsValid(cs: seq<nat>)
    requires forall c :: c in cs ==> Scalar(c)
    ensures ValidUtf8(Utf8Text(cs))
  {
    if |cs| > 0 {
      var s := Utf8Text(cs);
      assert s[..|Utf8(cs[0])|] == Utf8(cs[0]);
      ScalarIsHead(cs[0], s);
      assert s[|Utf8(cs[0])|..] == Utf8Text(cs[1..]);
      TextIsValid(cs[1..]);
    }
  }

  // ---- VMess ----

  /** The nonce of a chunk is 12 bytes: the counter, high byte first, and bytes 2 to 11 of the IV. */
  lemma NonceIff(iv: Bytes, count: u16, n: Bytes)
    requires |iv| == 16
    ensures n == Vmess.ChunkNonce(iv, count)
       <==> |n| == 12 && Two(n, 0) == count && forall i :: 2 <= i < 12 ==> n[i] == iv[i]
  {
    U16Iff(count, n[..Min(2, |n|)]);
    if |n| == 12 && Two(n, 0) == count && forall i :: 2 <= i < 12 ==> n[i] == iv[i] {
      assert n == n[..2] + iv[2..12];
    }
  }

  /** The option bits, and the security types that are served. */
  lemma OptionBits(c: Vmess.Config)
    ensures c.Masking() <==> c.opt & 0x04 != 0
    ensures c.Padding() <==> c.opt & 0x08 != 0
    ensures c.AuthLen() <==> c.opt & 0x10 != 0
    ensures c.Copying() <==> c.sec == 0 && c.opt & 0x01 == 0
    ensures c.Supported() <==> c.sec == 0 || c.sec == 3 || c.sec == 4 || c.sec == 5
  {
  }

  /** Which cipher and key protect the data: none for 0, ChaCha20-Poly1305 for 4, AES-128-GCM for 3 and 5. */
  lemma Ciphers(c: Vmess.Config, count: u16, data: Bytes)
    requires c.Supported() && c.Valid()
    ensures var n := Vmess.ChunkNonce(c.iv, count);
            && (c.sec == 0 ==> Vmess.Seal(c, count, data) == data && Vmess.Open(c, count, data) == Some(data))
            && (c.sec == 4 ==>
                  && Vmess.Seal(c, count, data) == c.crypto.chacha.seal(c.crypto.chachaKey(c.key), n, data)
                  && Vmess.Open(c, count, data) == c.crypto.chacha.open(c.crypto.chachaKey(c.key), n, data))
            && (c.sec == 3 || c.sec == 5 ==>
                  && Vmess.Seal(c, count, data) == c.crypto.aes.seal(c.key, n, data)
                  && Vmess.Open(c, count, data) == c.crypto.aes.open(c.key, n, data))
  {
  }

  /** The words drawn from Shake128 for a chunk: its padding length modulo 64 first, if it is padded and masked, and
      then the mask of its size, if that is masked and not sealed. */
  lemma Draws(c: Vmess.Config, st: Vmess.Lock)
    ensures var padded := c.Padding() && c.Masking();
            && Vmess.PadLen(c, st) < 64
            && (padded ==> exists q: nat :: c.crypto.shake(c.iv, st.pos) == 64 * q + Vmess.PadLen(c, st))
            && (!padded ==> Vmess.PadLen(c, st) == 0)
            && Vmess.PosAfterSize(c, st)
               == st.pos + (if padded then 1 else 0) + (if c.Masking() && !c.AuthLen() then 1 else 0)
  {
    var w := c.crypto.shake(c.iv, st.pos);
    assert w == 64 * (w / 64) + w % 64;
  }

  /** The size field of a chunk: sealed under the length key and the next counter, or two bytes, high byte first, that
      are the size or, bit by bit, the size and the mask. */
  lemma SizeLayout(c: Vmess.Config, st: Vmess.Lock, total: u16)
    requires c.Valid()
    ensures var f := Vmess.SizeField(c, st, total);
            if c.AuthLen() then
              f == c.crypto.aes.seal(c.crypto.authLenKey(c.key), Vmess.ChunkNonce(c.iv, (st.count + 1) % 65536),
                                     [total / 256, total % 256])
            else
              |f| == 2
              && if c.Masking() then
                   var mask := c.crypto.shake(c.iv, if c.Padding() then st.pos + 1 else st.pos);
                   forall i :: 0 <= i < 16 ==> (Bit(Two(f, 0), i) == 1 <==> Bit(total, i) != Bit(mask, i))
                 else Two(f, 0) == total
  {
    var mask := c.crypto.shake(c.iv, if c.Padding() then st.pos + 1 else st.pos);
    U16Iff(Xor16(total, mask), U16(Xor16(total, mask)));
    U16Iff(total, U16(total));
    forall i | 0 <= i < 16
      ensures Bit(Xor16(total, mask), i) == 1 <==> Bit(total, i) != Bit(mask, i)
    {
      Xor16Iff(total, mask, i);
    }
  }

  /** A chunk on the wire is its size field, the sealed data and the padding; the size covers the last two. */
  lemma ChunkLayout(c: Vmess.Config, st: Vmess.Lock, plain: Bytes, pad: Bytes)
    requires c.Supported() && c.Valid()
    ensures var e, ct := Vmess.EncodeChunk(c, st, plain, pad), Vmess.Seal(c, st.count, plain);
            && (|ct| + |pad| < 65536 ==> e.wire == Vmess.SizeField(c, st, |ct| + |pad|) + ct + pad)
            && e.next.count == (st.count + if c.AuthLen() then 2 else 1) % 65536
  {
  }

  /** What `relay_up` reads under the authenticated length: a chunk whose size is sealed under the counter itself, and
      whose data are sealed under the next one. */
  lemma AuthLenReads(c: Vmess.Config, st: Vmess.Lock, plain: Bytes, pad: Bytes, tail: Bytes, ct: Bytes, size: Bytes)
    requires c.Supported() && c.Valid() && c.crypto.Lawful() && c.AuthLen()
    requires plain != [] && |pad| == Vmess.PadLen(c, st) && |ct| + |pad| < 65536
    requires ct == Vmess.Seal(c, (st.count + 1) % 65536, plain)
    requires size == c.crypto.aes.seal(c.crypto.authLenKey(c.key), Vmess.ChunkNonce(c.iv, st.count), U16(|ct| + |pad|))
    ensures var r := Vmess.DecodeChunk(c, st, size + (ct + (pad + tail)));
            && r.Got? && r.plain == plain && r.rest == tail
            && r.next == Vmess.Lock((st.count + 2) % 65536, Vmess.PosAfterSize(c, st))
  {
    SizeOpens(c, st, |ct| + |pad|, size, ct + (pad + tail));
    BodyOpens(c, Vmess.AfterSize(c, st), plain, ct, pad, tail, Vmess.LenUses(c, st.count));
  }

  lemma SizeOpens(c: Vmess.Config, st: Vmess.Lock, total: u16, size: Bytes, rest: Bytes)
    requires c.Valid() && c.crypto.Lawful() && c.AuthLen()
    requires size == c.crypto.aes.seal(c.crypto.authLenKey(c.key), Vmess.ChunkNonce(c.iv, st.count), U16(total))
    ensures Vmess.DecodeChunk(c, st, size + rest)
         == Vmess.DecodeBody(c, Vmess.AfterSize(c, st), Vmess.PadLen(c, st), total, rest, Vmess.LenUses(c, st.count))
  {
    assert |size| == 18 && (size + rest)[..18] == size && (size + rest)[18..] == rest;
  }

  lemma BodyOpens(c: Vmess.Config, at: Vmess.Lock, plain: Bytes, ct: Bytes, pad: Bytes, tail: Bytes,
                  used: seq<Vmess.Use>)
    requires c.Supported() && c.Valid() && c.crypto.Lawful() && ct == Vmess.Seal(c, at.count, plain)
    requires plain != [] && |ct| + |pad| < 65536
    ensures Vmess.DecodeBody(c, at, |pad|, |ct| + |pad|, ct + (pad + tail), used)
         == Vmess.Got(plain, tail, Vmess.Lock(Succ16(at.count), at.pos), used + Vmess.DataUses(c, at.count))
  {
    var w := ct + (pad + tail);
    assert w[..|ct|] == ct && w[|ct| + |pad|..] == tail;
    assert Vmess.Open(c, at.count, ct) == Some(plain);
  }

  // ---- AnyTLS ----

  /** A frame on the wire: command, stream id in four bytes and length in two, high bytes first, then the data. */
  lemma AnytlsFrameLayout(f: Anytls.Frame)
    ensures var w := Anytls.EncodeFrame(f);
            && |w| == 7 + |f.data| && w[0] == f.cmd && Four(w, 1) == f.sid
            && Two(w, 5) == |f.data| % 65536 && w[7..] == f.data
  {
    var id, len := Be(f.sid, 4), U16(|f.data| % 65536);
    Be4Iff(f.sid, id);
    U16Iff(|f.data| % 65536, len);
    var w := Anytls.EncodeFrame(f);
    assert w[1] == id[0] && w[2] == id[1] && w[3] == id[2] && w[4] == id[3] && w[5] == len[0] && w[6] == len[1];
  }

  /** A frame is parsed exactly when these are the bytes, and nothing behind it is touched. */
  lemma AnytlsParsesIff(b: Bytes, f: Anytls.Frame, rest: Bytes)
    ensures Anytls.ParseFrame(b) == Some(Anytls.Parsed(f, rest))
       <==> |b| >= 7 && f.cmd == b[0] && f.sid == Four(b, 1) && |f.data| == Two(b, 5) && b[7..] == f.data + rest
  {
    if |b| >= 7 {
      Be4Iff(U32(b[1..5]), b[1..5]);
      var end := 7 + Two(b, 5);
      if |b| >= end {
        assert b[7..] == b[7..end] + b[end..];
        if b[7..] == f.data + rest && |f.data| == Two(b, 5) {
          assert b[7..end] == b[7..][..|f.data|] && b[end..] == b[7..][|f.data|..];
        }
      }
    }
  }

  // ---- TUIC ----

  /** An address on the wire: a tag, then nothing, a length and a name, or an IP, and the port. */
  lemma TuicAddressLayout(a: Tuic.Address)
    requires a.Valid()
    ensures var w := Tuic.EncodeAddress(a);
            match a
            case NoAddress => w == [0xff]
            case Domain(name, port) =>
              && |w| == 4 + |name| && w[0] == 0 && w[1] == |name| % 256
              && w[2..2 + |name|] == name && Two(w, 2 + |name|) == port
            case Ipv4(ip, port) => |w| == 7 && w[0] == 1 && w[1..5] == ip && Two(w, 5) == port
            case Ipv6(segs, port) =>
              |w| == 19 && w[0] == 2 && (forall i :: 0 <= i < 8 ==> Two(w, 1 + 2 * i) == segs[i]) && Two(w, 17) == port
  {
    match a
    case NoAddress =>
    case Domain(name, port) => U16Iff(port, U16(port));
    case Ipv4(ip, port) => U16Iff(port, U16(port));
    case Ipv6(segs, port) =>
      U16Iff(port, U16(port));
      SegsLayout(segs);
  }

  lemma {:induction false} SegsLayout(segs: seq<u16>)
    ensures forall i :: 0 <= i < |segs| ==> Two(Tuic.SegBytes(segs), 2 * i) == segs[i]
  {
    if |segs| > 0 {
      SegsLayout(segs[1..]);
      U16Iff(segs[0], U16(segs[0]));
      var w, more := Tuic.SegBytes(segs), Tuic.SegBytes(segs[1..]);
      forall i | 0 <= i < |segs|
        ensures Two(w, 2 * i) == segs[i]
      {
        if i > 0 {
          assert Two(more, 2 * (i - 1)) == segs[1..][i - 1];
          assert w[2 * i] == more[2 * i - 2] && w[2 * i + 1] == more[2 * i - 1];
        }
      }
    }
  }

  /** What the stream parser takes: version 5, commands 0 to 4, and the bytes each of them needs. */
  lemma TuicParsesIff(ver: byte, cmd: byte, d: Bytes)
    ensures Tuic.ParseStream(ver, cmd, d).Some? <==>
              && ver == 5 && cmd <= 4 && (cmd == 0 ==> |d| >= 48) && (cmd == 1 ==> Tuic.DecodeAddress(d).Some?)
              && (cmd == 2 ==> |d| >= 8 && Tuic.DecodeAddress(d[8..]).Some?) && (cmd == 3 ==> |d| >= 2)
  {
  }

  /** The commands by their numbers, field by field. */
  lemma TuicCommandLayout(ver: byte, cmd: byte, d: Bytes)
    requires Tuic.ParseStream(ver, cmd, d).Some?
    ensures var g := Tuic.ParseStream(ver, cmd, d).value;
            match g.value
            case Authenticate(uuid, token) => cmd == 0 && d == uuid + token + g.rest && |uuid| == 16 && |token| == 32
            case Connect(target) => cmd == 1 && d == Tuic.EncodeAddress(target) + g.rest
            case Packet(i) =>
              && cmd == 2 && |d| >= 8 && Two(d, 0) == i.assoc && Two(d, 2) == i.pkt && d[4] == i.fragTotal
              && d[5] == i.fragId && Two(d, 6) == i.size && d[8..] == Tuic.EncodeAddress(i.addr) + g.rest
            case Dissociate(assoc) => cmd == 3 && |d| >= 2 && Two(d, 0) == assoc && d[2..] == g.rest
            case Heartbeat => cmd == 4 && g.rest == d
  {
    if cmd == 0 {
      assert d == d[..16] + d[16..48] + d[48..];
    } else if cmd == 1 {
      Tuic.DecodeThenEncode(d);
    } else if cmd == 2 {
      Tuic.DecodeThenEncode(d[8..]);
    }
  }

  /** The header of a reply: version 5, command 2, one fragment of number 0, and the address last. */
  lemma TuicHeaderLayout(assoc: u16, pkt: u16, addr: Tuic.Address, len: u16)
    ensures var h := Tuic.BuildPacketHeader(assoc, pkt, addr, len);
            && |h| >= 10 && h[0] == 5 && h[1] == 2 && Two(h, 2) == assoc && Two(h, 4) == pkt && h[6] == 1 && h[7] == 0
            && Two(h, 8) == len && h[10..] == Tuic.EncodeAddress(addr)
  {
    U16Iff(assoc, U16(assoc));
    U16Iff(pkt, U16(pkt));
    U16Iff(len, U16(len));
  }

  // ---- Hysteria2 ----

  /** The widths of a written length, and its value under the two tag bits. */
  lemma VarintLayout(v: u64)
    ensures var w, n := Varint.Encode(v), FromBe(Varint.Encode(v));
            && (v < 64 ==> |w| == 1 && n == v)
            && (64 <= v < 16384 ==> |w| == 2 && n == 0x4000 + v)
            && (16384 <= v < 0x4000_0000 ==> |w| == 4 && n == 0x8000_0000 + v)
            && (0x4000_0000 <= v ==> |w| == 8 && n == 0xC000_0000_0000_0000 + v % 0x4000_0000_0000_0000)
  {
    Varint.Powers();
    if v < 64 {
      DerProofs.FromBeOne(v);
    } else if v < 16384 {
      FromBeInvertsBe(0x4000 + v, 2);
    } else if v < 0x4000_0000 {
      FromBeInvertsBe(0x8000_0000 + v, 4);
    } else {
      FromBeInvertsBe(0xC000_0000_0000_0000 + v % 0x4000_0000_0000_0000, 8);
    }
  }

  /** A UDP frame on the wire: session, packet number, fragment number and count, then the address and the payload. */
  lemma HysteriaFrameLayout(f: Hysteria.UdpFrame, text: Bytes)
    requires |text| < 0x1_0000_0000
    ensures var w := Hysteria.BuildFrame(f, text);
            && |w| >= 8 && Four(w, 0) == f.session && Two(w, 4) == f.packet && w[6] == f.fragId && w[7] == f.fragTotal
            && w[8..] == Varint.Encode(|text|) + (text + f.payload)
  {
    var tail := Varint.Encode(|text|) + (text + f.payload);
    Hysteria.HeaderBytes(f, tail);
    Hysteria.FrameShape(f, text);
    Be4Iff(f.session, Be(f.session, 4));
    var w := Hysteria.BuildFrame(f, text);
    assert Four(w[..4], 0) == Four(w, 0);
  }

  /** All of these have `n` bytes, but the last one may have less. */
  ghost predicate CutAt(cs: seq<Bytes>, n: nat) {
    && (forall i :: 0 <= i < |cs| ==> 1 <= |cs[i]| <= n)
    && (forall i :: 0 <= i < |cs| - 1 ==> |cs[i]| == n)
  }

  lemma {:induction false} ChunkSizes(b: Bytes, n: nat)
    requires n > 0
    ensures CutAt(Chunks(b, n), n)
    decreases |b|
  {
    if |b| > n {
      ChunkSizes(b[n..], n);
      OneMoreCut(b[..n], Chunks(b[n..], n), n);
    }
  }

  lemma OneMoreCut(c: Bytes, more: seq<Bytes>, n: nat)
    requires CutAt(more, n) && |c| == n > 0
    ensures CutAt([c] + more, n)
  {
    var cs := [c] + more;
    forall i | 0 <= i < |cs|
      ensures 1 <= |cs[i]| <= n && (i < |cs| - 1 ==> |cs[i]| == n)
    {
      if i > 0 {
        assert cs[i] == more[i - 1];
      }
    }
  }

  /** A payload of up to 1100 bytes is one piece; a longer one is cut into pieces of 1100 bytes, the last one of what
      is left. */
  lemma HysteriaPieces(payload: Bytes)
    ensures var ps := Hysteria.Pieces(payload);
            && Concat(ps) == payload && |ps| >= 1 && (|payload| <= 1100 <==> |ps| == 1)
            && (forall i :: 0 <= i < |ps| - 1 ==> |ps[i]| == 1100) && |ps[|ps| - 1]| <= 1100
  {
    ChunkSizes(payload, 1100);
    ChunksJoin(payload, 1100);
    Hysteria.ChunksCount(payload, 1100);
    if |payload| <= 1100 {
      assert Concat([payload]) == payload + Concat([]);
    }
  }

  /** A text splits at its last colon, and only there. */
  lemma {:induction false} SplitsIff(s: Bytes, left: Bytes, right: Bytes)
    ensures Hysteria.RSplitOnce(s) == Some(Hysteria.Halves(left, right)) <==> s == left + [58] + right && 58 !in right
  {
    if s == left + [58] + right && 58 !in right {
      Hysteria.RSplitAt(left, right);
    }
    if Hysteria.RSplitOnce(s).Some? {
      SplitIsThere(s);
    }
  }

  lemma {:induction false} SplitIsThere(s: Bytes)
    requires Hysteria.RSplitOnce(s).Some?
    ensures var h := Hysteria.RSplitOnce(s).value; s == h.left + [58] + h.right && 58 !in h.right
  {
    var n := |s| - 1;
    assert s == s[..n] + [s[n]];
    if s[n] != 58 {
      SplitIsThere(s[..n]);
      var h := Hysteria.RSplitOnce(s[..n]).value;
      Assoc(h.left + [58], h.right, [s[n]]);
    } else {
      assert s[..n] + [s[n]] == s[..n] + [s[n]] + [];
    }
  }

  predicate Digits(d: Bytes) {
    forall i :: 0 <= i < |d| ==> 48 <= d[i] <= 57
  }

  /** What decimal digits stand for, the last one least. */
  function Horner(d: Bytes): nat
    requires Digits(d)
  {
    if |d| == 0 then 0 else Horner(d[..|d| - 1]) * 10 + (d[|d| - 1] - 48)
  }

  lemma {:induction false} DigitsIff(d: Bytes)
    ensures Hysteria.DigitsValue(d) == if Digits(d) then Some(Horner(d)) else None
  {
    if |d| > 0 {
      var n := |d| - 1;
      DigitsIff(d[..n]);
      assert Digits(d) <==> Digits(d[..n]) && 48 <= d[n] <= 57;
    }
  }

  /** A port is one or more digits, perhaps behind a plus sign, and below 65536. */
  lemma PortIff(s: Bytes, port: u16)
    ensures var d := if |s| > 1 && s[0] == 43 then s[1..] else s;
            Hysteria.ParseU16(s) == Some(port) <==> |d| > 0 && Digits(d) && Horner(d) == port
  {
    DigitsIff(if |s| > 1 && s[0] == 43 then s[1..] else s);
  }

  /** The text of an address: the IP, in brackets if it is a V6 one, a colon and the digits of the port. */
  lemma AddressTextLayout(a: Hysteria.SocketAddr) returns (d: Bytes)
    requires a.Valid()
    ensures Digits(d) && Horner(d) == a.port
    ensures Hysteria.AddrText(a) == if a.V4? then a.ip + [58] + d else [91] + a.ip + [93, 58] + d
  {
    d := Hysteria.Decimal(a.port);
    Hysteria.DecimalReadsBack(a.port);
    DigitsIff(d);
  }

  // ---- DER ----

  /** Length fields: one byte below 0x80, or 0x81 to 0x84 and that many bytes, high byte first. */
  lemma DerLengthIff(d: Bytes, pos: nat)
    ensures var r := Der.DecodeLength(d, pos);
            && (r.Some? <==> pos < |d| && (d[pos] < 0x80 || (0x81 <= d[pos] <= 0x84 && pos + (d[pos] - 0x7f) <= |d|)))
            && (r.Some? && d[pos] < 0x80 ==> r.value == Der.Len(d[pos], 1))
            && (r.Some? && d[pos] >= 0x80 ==>
                  r.value == Der.Len(FromBe(d[pos + 1..pos + (d[pos] - 0x7f)]), d[pos] - 0x7f))
  {
  }

  /** The new signature: tag 3, the shortest length form up to three bytes, a zero byte and the signature. */
  lemma NewSignatureLayout(sig: Bytes)
    ensures var t, n, w := Der.EncodeTlv(Der.BIT_STRING, [0] + sig), |sig| + 1, |Der.EncodeLength(|sig| + 1)|;
            && |t| == 1 + w + n && t[0] == 3 && t[1 + w] == 0 && t[2 + w..] == sig
            && (n < 128 ==> w == 1 && t[1] == n)
            && (128 <= n < 256 ==> w == 2 && t[1] == 0x81 && t[2] == n)
            && (256 <= n < 65536 ==> w == 3 && t[1] == 0x82 && Two(t, 2) == n)
            && (65536 <= n ==> w == 4 && t[1] == 0x83 && t[2] as int * 65536 + Two(t, 3) == n % 0x100_0000)
  {
    var n := |sig| + 1;
    assert |[0] + sig| == n;
    if n >= 65536 {
      ThreeDigits(n);
    }
  }

  lemma TwoDigits(n: nat)
    ensures n / 256 % 256 * 256 + n % 256 == n % 65536 && n / 65536 == n / 256 / 256
  {
    var a := n / 256;
    DivMod(n, 65536, a / 256, a % 256 * 256 + n % 256);
  }

  lemma ThreeDigits(n: nat)
    ensures n / 65536 % 256 * 65536 + n / 256 % 256 * 256 + n % 256 == n % 0x100_0000
  {
    TwoDigits(n);
    var b := n / 65536;
    DivMod(n, 0x100_0000, b / 256, b % 256 * 65536 + n % 65536);
  }

  /** The outer length, two bytes of it at most. */
  lemma OuterLengthLayout(d: Bytes, start: nat)
    requires 1 <= start <= |d|
    ensures var t, n, w := Der.FixOuter(d, start), |d| - start, |Der.OuterLength(|d| - start)|;
            && |t| == 1 + w + n && t[0] == d[0] && t[1 + w..] == d[start..]
            && (n < 128 ==> w == 1 && t[1] == n)
            && (128 <= n < 256 ==> w == 2 && t[1] == 0x81 && t[2] == n)
            && (256 <= n ==> w == 3 && t[1] == 0x82 && Two(t, 2) == n % 65536)
  {
    TwoDigits(|d| - start);
  }

  /** A certificate is left alone unless it is a SEQUENCE, tag 0x30, whose third field is a BIT STRING, tag 3. */
  lemma LeftAloneIff(d: Bytes, sig: Bytes)
    ensures Der.Replace(d, sig) == Der.Bailed <==>
              || |d| == 0 || d[0] != 0x30 || Der.ContentStart(d, 0).None?
              || var third := Der.FieldPos(d, Der.ContentStart(d, 0).value, 2); third.None? || d[third.value] != 3
  {
  }

  // ---- ClientHello ----

  /** What is in front of the session id, field by field. */
  datatype Prefix = Prefix(record: Bytes, handshake: Bytes, version: Bytes, random: Bytes, sid: Bytes) {
    predicate Valid() { |record| == 5 && |handshake| == 4 && |version| == 2 && |random| == 32 && |sid| == 32 }

    function Head(): Bytes { record + handshake + version + random + [32] + sid }
  }

  /** The record header takes 5 bytes, the handshake header 4, the version 2, the random 32 and the session id one more
      than its 32: what follows is scanned. */
  lemma HelloLayout(p: Prefix, h: Hello.Hello, tail: Bytes)
    requires p.Valid() && h.head == p.Head() && |h.suites| < 65536 && |h.methods| < 256
    requires |Hello.WriteExtensions(h.exts)| < 65536 && forall e :: e in h.exts ==> Hello.ValidExtension(e)
    ensures Hello.Extract(Hello.WriteHello(h) + tail) == Hello.Offered(h.exts)
  {
    Hello.ExtractsOffered(h, tail);
  }

  /** The four bytes in front of an extension or a share: its kind and its length, high bytes first. */
  lemma EntryBytes(kind: u16, body: Bytes, rest: Bytes, d: Bytes)
    requires |d| >= 4 && Two(d, 0) == kind && Two(d, 2) == |body| && d[4..] == body + rest
    ensures d == U16(kind) + U16(|body| % 65536) + body + rest
  {
    U16Iff(kind, d[..2]);
    U16Iff(|body|, d[2..4]);
    Assoc(d[..2] + d[2..4], body, rest);
    assert d == d[..2] + d[2..4] + d[4..];
  }

  /** One extension: number 51 is the key_share one, any other is skipped. */
  lemma ExtensionLayout(kind: u16, body: Bytes, rest: Bytes, d: Bytes)
    requires |d| >= 4 && Two(d, 0) == kind && Two(d, 2) == |body| && d[4..] == body + rest
    ensures Hello.ScanExtensions(d) == if kind == 51 then Hello.ParseKeyShare(body) else Hello.ScanExtensions(rest)
  {
    EntryBytes(kind, body, rest, d);
    Hello.Entry(kind, body, rest);
  }

  /** One share: group 29 with 32 bytes is the key; of group 4588, with at least 1120 bytes, the last 32 are kept. */
  lemma ShareLayout(group: u16, key: Bytes, rest: Bytes, d: Bytes, best: Option<Bytes>)
    requires |d| >= 4 && Two(d, 0) == group && Two(d, 2) == |key| && d[4..] == key + rest
    ensures Hello.ScanShares(d, best)
         == if group == 29 && |key| == 32 then Some(key)
            else Hello.ScanShares(rest, if group == 4588 && |key| >= 1120 then Some(key[|key| - 32..]) else best)
  {
    EntryBytes(group, key, rest, d);
    Hello.ShareStep(Hello.Share(group, key), rest, best);
  }

  // ---- Shadowsocks ----

  /** A chunk on the wire: its length in two bytes, high byte first, sealed under the next nonce, then the data under
      the one after it. */
  lemma ShadowsocksChunkLayout(a: Aead, key: Bytes, ctr: nat, plain: Bytes)
    requires |plain| < 65536
    ensures Shadowsocks.ChunkWire(a, key, ctr, plain)
         == a.seal(key, Shadowsocks.NonceAt(ctr), [|plain| / 256, |plain| % 256])
            + a.seal(key, Shadowsocks.NonceAt(ctr + 1), plain)
  {
  }

  /** Data are cut into chunks of 16383 bytes, the last one of what is left. */
  lemma ShadowsocksPieces(data: Bytes)
    ensures var cs := Chunks(data, Shadowsocks.MAX_CHUNK);
            && Concat(cs) == data && (forall i :: 0 <= i < |cs| ==> 1 <= |cs[i]| <= 16383)
            && (forall i :: 0 <= i < |cs| - 1 ==> |cs[i]| == 16383)
  {
    ChunkSizes(data, 16383);
    ChunksJoin(data, 16383);
  }

  /** A read meets the clean end exactly when fewer than the 18 bytes of a sealed length are left; a chunk is read
      exactly when both parts are there and open. */
  lemma ShadowsocksReadsIff(a: Aead, key: Bytes, ctr: nat, input: Bytes, plain: Bytes, rest: Bytes)
    ensures Shadowsocks.ReadChunk(a, key, ctr, input).res == Shadowsocks.Eof <==> |input| < 18
    ensures Shadowsocks.ReadChunk(a, key, ctr, input) == Shadowsocks.ChunkRead(Shadowsocks.Plain(plain), ctr + 2, rest)
       <==> && |input| >= 18
            && var len := a.open(key, Shadowsocks.NonceAt(ctr), input[..18]);
               && len.Some? && |len.value| >= 2
               && var n := 18 + Two(len.value, 0) + 16;
                  && n <= |input| && rest == input[n..]
                  && a.open(key, Shadowsocks.NonceAt(ctr + 1), input[18..n]) == Some(plain)
  {
    if |input| >= 18 {
      var len := a.open(key, Shadowsocks.NonceAt(ctr), input[..18]);
      if len.Some? && |len.value| >= 2 {
        var n := Two(len.value, 0) + 16;
        if 18 + n <= |input| {
          DropDrop(input, 18, n);
          assert input[18..][..n] == input[18..18 + n];
        }
      }
    }
  }
}
