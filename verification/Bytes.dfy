/** Bytes, fixed-width big-endian integers and the two byte endpoints the protocol loops use. */
module Bytes {
  type byte = x: int | 0 <= x < 0x100
  type u16 = x: int | 0 <= x < 0x10000
  type u32 = x: int | 0 <= x < 0x1_0000_0000
  type u64 = x: int | 0 <= x < 0x1_0000_0000_0000_0000
  type Bytes = seq<byte>

  datatype Option<+T> = None | Some(value: T)

  function Min(a: int, b: int): int {
    if a <= b then a else b
  }

  /** Wrapping addition of 1 on an unsigned 16-bit counter. */
  function Succ16(c: u16): u16 {
    (c + 1) % 0x10000
  }

  function Pow2(n: nat): nat {
    if n == 0 then 1 else 2 * Pow2(n - 1)
  }

  /** Exclusive or of the low `n` bits, bit by bit. */
  function XorBits(a: nat, b: nat, n: nat): (r: nat)
    ensures r < Pow2(n)
  {
    if n == 0 then 0 else (a + b) % 2 + 2 * XorBits(a / 2, b / 2, n - 1)
  }

  lemma BitOnTop(bit: nat, q: nat)
    requires bit < 2
    ensures (bit + 2 * q) % 2 == bit && (bit + 2 * q) / 2 == q
  {
  }

  lemma ParityCancels(a: nat, b: nat)
    ensures ((a + b) % 2 + b) % 2 == a % 2
  {
  }

  lemma {:induction false} XorBitsCancels(a: nat, b: nat, n: nat)
    requires a < Pow2(n)
    ensures XorBits(XorBits(a, b, n), b, n) == a
  {
    if n == 0 {
    } else {
      XorBitsCancels(a / 2, b / 2, n - 1);
      BitOnTop((a + b) % 2, XorBits(a / 2, b / 2, n - 1));
      var r := XorBits(a, b, n);
      ParityCancels(a, b);
      SameParity(r, (a + b) % 2, b);
    }
  }

  lemma SameParity(r: nat, bit: nat, b: nat)
    requires r % 2 == bit
    ensures (r + b) % 2 == (bit + b) % 2
  {
  }

  lemma Pow2Of16()
    ensures Pow2(16) == 0x10000
  {
    assert Pow2(4) == 16;
    assert Pow2(8) == 256;
    assert Pow2(12) == 4096;
  }

  /** Exclusive or of two 16-bit words. */
  function Xor16(a: u16, b: u16): u16 {
    Pow2Of16();
    XorBits(a, b, 16)
  }

  lemma Xor16Cancels(a: u16, b: u16)
    ensures Xor16(Xor16(a, b), b) == a
  {
    Pow2Of16();
    XorBitsCancels(a, b, 16);
  }

  lemma Assoc<T>(a: seq<T>, b: seq<T>, c: seq<T>)
    ensures a + (b + c) == (a + b) + c
  {
  }

  lemma DropDrop<T>(s: seq<T>, a: nat, b: nat)
    requires a + b <= |s|
    ensures s[a..][b..] == s[a + b..]
  {
  }

  function Concat(parts: seq<Bytes>): Bytes {
    if |parts| == 0 then [] else parts[0] + Concat(parts[1..])
  }

  lemma {:induction false} ConcatAppend(a: seq<Bytes>, b: seq<Bytes>)
    ensures Concat(a + b) == Concat(a) + Concat(b)
  {
    if |a| == 0 {
      assert a + b == b;
    } else {
      ConcatAppend(a[1..], b);
      assert (a + b)[1..] == a[1..] + b;
      Assoc(a[0], Concat(a[1..]), Concat(b));
    }
  }

  /** `chunks(n)`: all of length `n` but the last. */
  function Chunks(b: Bytes, n: nat): seq<Bytes>
    requires n > 0
    decreases |b|
  {
    if |b| == 0 then [] else if |b| <= n then [b] else [b[..n]] + Chunks(b[n..], n)
  }

  lemma {:induction false} ChunksJoin(b: Bytes, n: nat)
    requires n > 0
    ensures Concat(Chunks(b, n)) == b
    decreases |b|
  {
    if |b| > n {
      ChunksJoin(b[n..], n);
      assert ([b[..n]] + Chunks(b[n..], n))[1..] == Chunks(b[n..], n);
      assert b == b[..n] + b[n..];
    } else if |b| > 0 {
      assert Concat([b]) == b + Concat([]);
    }
  }

  // ---- Division ----

  lemma MulAtLeast(k: nat, d: nat)
    requires k >= 1
    ensures k * d >= d
  {
  }

  lemma MulDiff(a: int, b: int, d: int)
    ensures a * d - b * d == (a - b) * d
  {
  }

  lemma DivMod(v: nat, d: nat, q: nat, r: nat)
    requires v == q * d + r && r < d
    ensures v / d == q && v % d == r
  {
    DivModBack(v, d);
    var p := v / d;
    MulDiff(p, q, d);
    MulDiff(q, p, d);
    if p > q {
      MulAtLeast(p - q, d);
    } else if p < q {
      MulAtLeast(q - p, d);
    }
  }

  lemma DivModBack(v: nat, d: nat)
    requires d > 0
    ensures v / d * d + v % d == v
  {
  }

  // ---- Big-endian integers ----

  function Pow256(n: nat): nat
    ensures Pow256(n) > 0
  {
    if n == 0 then 1 else 256 * Pow256(n - 1)
  }

  /** The low `n` bytes of `v`, most significant first. */
  function Be(v: nat, n: nat): (b: Bytes)
    ensures |b| == n
  {
    if n == 0 then [] else Be(v / 256, n - 1) + [v % 256]
  }

  function FromBe(b: Bytes): nat {
    if |b| == 0 then 0 else FromBe(b[..|b| - 1]) * 256 + b[|b| - 1]
  }

  lemma {:induction false} FromBeInvertsBe(v: nat, n: nat)
    requires v < Pow256(n)
    ensures FromBe(Be(v, n)) == v
  {
    if n == 0 {
    } else {
      FromBeInvertsBe(v / 256, n - 1);
      assert Be(v, n)[..n - 1] == Be(v / 256, n - 1);
    }
  }

  lemma {:induction false} BeInvertsFromBe(b: Bytes)
    ensures FromBe(b) < Pow256(|b|)
    ensures Be(FromBe(b), |b|) == b
  {
    if |b| == 0 {
    } else {
      BeInvertsFromBe(b[..|b| - 1]);
      assert b == b[..|b| - 1] + [b[|b| - 1]];
    }
  }

  /** A 16-bit value in network order, written out because it is the common case. */
  function U16(v: u16): (b: Bytes)
    ensures |b| == 2
  {
    [v / 256, v % 256]
  }

  function GetU16(hi: byte, lo: byte): u16 {
    hi * 256 + lo
  }

  lemma Pow256Of4()
    ensures Pow256(4) == 0x1_0000_0000
  {
    assert Pow256(2) == 0x10000;
  }

  function U32(b: Bytes): u32
    requires |b| == 4
  {
    BeInvertsFromBe(b);
    Pow256Of4();
    FromBe(b)
  }

  lemma U16ReadsBack(v: u16)
    ensures GetU16(U16(v)[0], U16(v)[1]) == v
  {
  }

  // ---- UTF-8 ----

  predicate Cont(b: byte) {
    0x80 <= b < 0xC0
  }

  /** Number of bytes of the well-formed UTF-8 sequence at the head of `s`, 0 if there is none. */
  function Utf8Head(s: Bytes): (n: nat)
    requires |s| > 0
    ensures n <= |s|
  {
    if s[0] < 0x80 then 1
    else if 0xC2 <= s[0] < 0xE0 then if |s| >= 2 && Cont(s[1]) then 2 else 0
    else if 0xE0 <= s[0] < 0xF0 then
      if |s| >= 3 && Cont(s[1]) && Cont(s[2]) && (s[0] == 0xE0 ==> s[1] >= 0xA0) && (s[0] == 0xED ==> s[1] < 0xA0)
      then 3 else 0
    else if 0xF0 <= s[0] < 0xF5 then
      if |s| >= 4 && Cont(s[1]) && Cont(s[2]) && Cont(s[3])
         && (s[0] == 0xF0 ==> s[1] >= 0x90) && (s[0] == 0xF4 ==> s[1] < 0x90)
      then 4 else 0
    else 0
  }

  /** Strings are kept as their UTF-8 bytes; this is the test of `String::from_utf8`. */
  predicate ValidUtf8(s: Bytes) {
    |s| == 0 || (Utf8Head(s) > 0 && ValidUtf8(s[Utf8Head(s)..]))
  }

  lemma {:induction false} AsciiIsUtf8(s: Bytes)
    requires forall b :: b in s ==> b < 0x80
    ensures ValidUtf8(s)
  {
    if |s| == 0 {
    } else {
      assert s[0] in s;
      assert forall b :: b in s[1..] ==> b in s;
      AsciiIsUtf8(s[1..]);
    }
  }

  // ---- Endpoints ----

  /** The receiving end of a byte stream whose peer sends `data` and then closes. */
  class ByteReader {
    var data: Bytes

    constructor (data: Bytes)
      ensures this.data == data
    {
      this.data := data;
    }

    /** `read_exact`: on a short stream the remaining bytes are consumed and the call fails. */
    method ReadExact(n: nat) returns (r: Option<Bytes>)
      modifies this
      ensures n <= |old(data)| ==> r == Some(old(data)[..n]) && data == old(data)[n..]
      ensures n > |old(data)| ==> r == None && data == []
    {
      if n <= |data| {
        r := Some(data[..n]);
        data := data[n..];
      } else {
        r := None;
        data := [];
      }
    }
  }

  /** The sending end of a byte stream; `sent` is everything written so far. */
  class ByteWriter {
    var sent: Bytes

    constructor ()
      ensures sent == []
    {
      sent := [];
    }

    method WriteAll(b: Bytes)
      modifies this
      ensures sent == old(sent) + b
    {
      sent := sent + b;
    }
  }
}
