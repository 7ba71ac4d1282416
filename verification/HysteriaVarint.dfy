/** QUIC variable-length integers: one writer and the two readers of the repository (src/hysteria2/auth.rs,
    proxy.rs). */
module HysteriaVarint {
  import opened Bytes

  const TWO62 := 0x4000_0000_0000_0000

  /** `write_varint`. The disjunction with the two length bits is an addition because the value fits below them;
      the widest form takes any 64-bit value, and there the two top bits of the value are overwritten. */
  function Encode(val: u64): Bytes {
    if val < 64 then [val]
    else if val < 16384 then Be(0x4000 + val, 2)
    else if val < 1_073_741_824 then Be(0x8000_0000 + val, 4)
    else Be(0xC000_0000_0000_0000 + val % TWO62, 8)
  }

  /** A value and the bytes that follow it. */
  datatype Read = Read(val: nat, rest: Bytes)

  function Fold(val: nat, b: Bytes): nat
    decreases |b|
  {
    if |b| == 0 then val else Fold(val * 256 + b[0], b[1..])
  }

  function Width(first: byte): nat {
    match first / 64 case 0 => 1 case 1 => 2 case 2 => 4 case _ => 8
  }

  /** Reading a first byte and `extra` more. */
  function DecodeWith(data: Bytes, extra: nat): Option<Read>
    requires |data| > 0
  {
    if |data| < 1 + extra then None
    else Some(Read(Fold(data[0] % 64, data[1..1 + extra]), data[1 + extra..]))
  }

  /** `read_varint`: the two top bits of the first byte are the logarithm of the width. */
  function Decode(data: Bytes): Option<Read> {
    if |data| == 0 then None else DecodeWith(data, Width(data[0]) - 1)
  }

  /** `read_varint_bytes` of the datagram parser: the two top bits are taken for the number of extra bytes. */
  function DecodeShort(data: Bytes): Option<Read> {
    if |data| == 0 then None else DecodeWith(data, data[0] / 64)
  }

  method WriteVarint(buf: ByteWriter, val: u64)
    modifies buf
    ensures buf.sent == old(buf.sent) + Encode(val)
  {
    if val < 64 {
      buf.WriteAll([val]);
    } else if val < 16384 {
      buf.WriteAll(Be(0x4000 + val, 2));
    } else if val < 1_073_741_824 {
      buf.WriteAll(Be(0x8000_0000 + val, 4));
    } else {
      buf.WriteAll(Be(0xC000_0000_0000_0000 + val % TWO62, 8));
    }
  }

  /** What both readers do once they have the first byte: read `extra` more. */
  method ReadRest(stream: ByteReader, first: byte, extra: nat) returns (r: Option<nat>)
    modifies stream
    ensures var d := DecodeWith([first] + old(stream.data), extra);
            if d.None? then r == None else r == Some(d.value.val) && stream.data == d.value.rest
  {
    var val: nat := first % 64;
    ghost var data := stream.data;
    for i := 0 to extra
      invariant i <= |data| && stream.data == data[i..]
      invariant extra <= |data| ==> Fold(first % 64, data[..extra]) == Fold(val, data[i..extra])
    {
      var b := stream.ReadExact(1);
      if b.None? {
        return None;
      }
      assert extra <= |data| ==> data[i..extra][0] == data[i] && data[i..extra][1..] == data[i + 1..extra];
      val := val * 256 + b.value[0];
    }
    Prefixed(first, data, extra);
    r := Some(val);
  }

  lemma Prefixed(first: byte, data: Bytes, extra: nat)
    requires extra <= |data|
    ensures ([first] + data)[1..1 + extra] == data[..extra] && ([first] + data)[1 + extra..] == data[extra..]
  {
  }

  method ReadVarint(stream: ByteReader) returns (r: Option<nat>)
    modifies stream
    ensures var d := Decode(old(stream.data));
            if d.None? then r == None else r == Some(d.value.val) && stream.data == d.value.rest
  {
    var first := stream.ReadExact(1);
    if first.None? {
      return None;
    }
    assert [first.value[0]] + stream.data == old(stream.data);
    r := ReadRest(stream, first.value[0], Width(first.value[0]) - 1);
  }

  method ReadVarintBytes(data: ByteReader) returns (r: Option<nat>)
    modifies data
    ensures var d := DecodeShort(old(data.data));
            if d.None? then r == None else r == Some(d.value.val) && data.data == d.value.rest
  {
    var first := data.ReadExact(1);
    if first.None? {
      return None;
    }
    assert [first.value[0]] + data.data == old(data.data);
    r := ReadRest(data, first.value[0], first.value[0] / 64);
  }

  // ---- Round trips ----

  lemma {:induction false} FoldIsFromBe(val: nat, b: Bytes)
    ensures Fold(val, b) == val * Pow256(|b|) + FromBe(b)
    decreases |b|
  {
    if |b| == 0 {
    } else {
      FoldIsFromBe(val * 256 + b[0], b[1..]);
      FromBeHead(b);
      assert (val * 256 + b[0]) * Pow256(|b| - 1) == val * (256 * Pow256(|b| - 1)) + b[0] * Pow256(|b| - 1);
    }
  }

  lemma {:induction false} FromBeHead(b: Bytes)
    requires |b| > 0
    ensures FromBe(b) == b[0] * Pow256(|b| - 1) + FromBe(b[1..])
  {
    if |b| <= 1 {
    } else {
      var init := b[..|b| - 1];
      FromBeHead(init);
      assert init[1..] == b[1..][..|b| - 2];
    }
  }

  lemma Powers()
    ensures Pow256(1) == 0x100 && Pow256(2) == 0x10000 && Pow256(3) == 0x1000000 && Pow256(4) == 0x1_0000_0000
    ensures Pow256(7) == 0x100_0000_0000_0000 && Pow256(8) == 0x1_0000_0000_0000_0000
  {
    assert Pow256(5) == 256 * Pow256(4) && Pow256(6) == 256 * Pow256(5);
  }

  /** The first byte of an `n`-byte encoding of `v`, and what is left when it is taken off. */
  lemma BeHead(v: nat, n: nat)
    requires n > 0 && v < Pow256(n)
    ensures var b := Be(v, n); b[0] == v / Pow256(n - 1) && FromBe(b[1..]) == v % Pow256(n - 1)
  {
    var b := Be(v, n);
    FromBeInvertsBe(v, n);
    FromBeHead(b);
    BeInvertsFromBe(b[1..]);
    DivMod(v, Pow256(n - 1), b[0], FromBe(b[1..]));
  }

  /** An `n`-byte form whose tag bits sit on top of `val` reads back as `val` when `n - 1` bytes follow the first. */
  lemma WideRoundTrip(tag: nat, val: nat, n: nat, rest: Bytes)
    requires n > 0 && tag < 4 && val < 64 * Pow256(n - 1)
    ensures var w := Be(tag * (64 * Pow256(n - 1)) + val, n);
            w[0] / 64 == tag && DecodeWith(w + rest, n - 1) == Some(Read(val, rest))
  {
    var p := Pow256(n - 1);
    var v := tag * (64 * p) + val;
    var w := Be(v, n);
    assert Pow256(n) == 256 * p;
    assert v < 256 * p;
    BeHead(v, n);
    TagSplit(tag, val, p);
    assert (w + rest)[1..1 + (n - 1)] == w[1..];
    assert (w + rest)[n..] == rest;
    FoldIsFromBe(w[0] % 64, w[1..]);
    DivModBack(val, p);
  }

  lemma QuotientBelow(v: nat, d: nat, k: nat)
    requires d > 0 && v < k * d
    ensures v / d < k
  {
    DivModBack(v, d);
    MulDiff(v / d, k, d);
    if v / d > k {
      MulAtLeast(v / d - k, d);
    }
  }

  lemma TagSplit(tag: nat, val: nat, p: nat)
    requires p > 0 && tag < 4 && val < 64 * p
    ensures var q := (tag * (64 * p) + val) / p;
            q / 64 == tag && q % 64 == val / p && (tag * (64 * p) + val) % p == val % p
  {
    var v, r := val / p, val % p;
    DivModBack(val, p);
    QuotientBelow(val, p, 64);
    TagOnTop(tag, v, p);
    DivMod(tag * (64 * p) + val, p, tag * 64 + v, r);
  }

  lemma TagOnTop(tag: nat, v: nat, p: nat)
    ensures (tag * 64 + v) * p == tag * (64 * p) + v * p
  {
  }

  lemma EncodeForms(val: u64)
    ensures val < 64 ==> Encode(val) == [val]
    ensures 64 <= val < 16384 ==> Encode(val) == Be(1 * (64 * Pow256(1)) + val, 2)
    ensures 16384 <= val < 1_073_741_824 ==> Encode(val) == Be(2 * (64 * Pow256(3)) + val, 4)
    ensures val >= 1_073_741_824 ==> Encode(val) == Be(3 * (64 * Pow256(7)) + val % TWO62, 8) && 64 * Pow256(7) == TWO62
  {
    Powers();
  }

  /** Reading back any 64-bit value that was written: its low 62 bits, and exactly the bytes written are consumed. */
  lemma WriteThenRead(val: u64, rest: Bytes)
    ensures Decode(Encode(val) + rest) == Some(Read(val % TWO62, rest))
  {
    EncodeForms(val);
    Powers();
    var w := Encode(val);
    if val < 64 {
      assert (w + rest)[1..1] == [] && (w + rest)[1..] == rest;
    } else if val < 16384 {
      WideRoundTrip(1, val, 2, rest);
    } else if val < 1_073_741_824 {
      WideRoundTrip(2, val, 4, rest);
    } else {
      WideRoundTrip(3, val % TWO62, 8, rest);
    }
  }

  /** The value comes back exactly when it is below 2^62, whatever follows it. */
  lemma VarintRoundTripIff(val: u64, rest: Bytes)
    ensures Decode(Encode(val) + rest) == Some(Read(val, rest)) <==> val < TWO62
  {
    WriteThenRead(val, rest);
  }

  lemma FirstByte(val: u64)
    ensures Encode(val)[0] / 64
         == if val < 64 then 0 else if val < 16384 then 1 else if val < 1_073_741_824 then 2 else 3
    ensures |Encode(val)| == Width(Encode(val)[0])
  {
    EncodeForms(val);
    Powers();
    if val < 64 {
    } else if val < 16384 {
      WideRoundTrip(1, val, 2, []);
    } else if val < 1_073_741_824 {
      WideRoundTrip(2, val, 4, []);
    } else {
      WideRoundTrip(3, val % TWO62, 8, []);
    }
  }

  /** The datagram reader agrees with the writer exactly below 16384: beyond, it stops short of the encoding's end. */
  lemma ShortRoundTripIff(val: u64, rest: Bytes)
    ensures DecodeShort(Encode(val) + rest) == Some(Read(val, rest)) <==> val < 16384
  {
    FirstByte(val);
    WriteThenRead(val, rest);
    var w := Encode(val);
    assert (w + rest)[0] == w[0];
    if val >= 16384 {
      var extra := w[0] / 64;
      assert |(w + rest)[1 + extra..]| > |rest|;
    }
  }
}
