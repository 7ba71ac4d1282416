/** The VMess chunk stream: `relay_down` writes chunks, `relay_up` parts them (src/vmess/mod.rs). */
module VmessChunks {
  import opened Bytes
  import opened AeadLaws

  const OPT_CHUNK_STREAM: bv8 := 0x01
  const OPT_CHUNK_MASKING: bv8 := 0x04
  const OPT_GLOBAL_PADDING: bv8 := 0x08
  const OPT_AUTH_LEN: bv8 := 0x10
  const SEC_NONE: bv8 := 0x00
  const SEC_AES128_GCM: bv8 := 0x03
  const SEC_CHACHA20: bv8 := 0x04
  const SEC_AUTO: bv8 := 0x05
  const CHUNK_SIZE := 8192

  /** The libraries: two AEADs, the two key derivations and Shake128 as an infinite stream of words. */
  datatype Crypto = Crypto(aes: Aead, chacha: Aead, chachaKey: Bytes -> Bytes, authLenKey: Bytes -> Bytes,
                           shake: (Bytes, nat) -> u16)
  {
    ghost predicate Lawful() {
      aes.Lawful() && chacha.Lawful()
    }
  }

  /** One direction of a connection: keys, option bits and security type. */
  datatype Config = Config(crypto: Crypto, key: Bytes, iv: Bytes, opt: bv8, sec: bv8) {
    predicate Copying() { sec == SEC_NONE && opt & OPT_CHUNK_STREAM == 0 }
    predicate Masking() { opt & OPT_CHUNK_MASKING != 0 }
    predicate Padding() { opt & OPT_GLOBAL_PADDING != 0 }
    predicate AuthLen() { opt & OPT_AUTH_LEN != 0 }
    predicate Supported() { sec == SEC_NONE || sec == SEC_AES128_GCM || sec == SEC_AUTO || sec == SEC_CHACHA20 }
    predicate Valid() { |iv| == 16 }
  }

  /** What the two ends must agree on at a chunk boundary: the counter and the Shake128 position. */
  datatype Lock = Lock(count: u16, pos: nat)

  /** One call of an AEAD: the key and the nonce it was given. */
  datatype Use = Use(key: Bytes, nonce: Bytes)

  function ChunkNonce(iv: Bytes, count: u16): (n: Bytes)
    requires |iv| == 16
    ensures |n| == NONCE_LEN
  {
    U16(count) + iv[2..12]
  }

  method FillChunkNonce(iv: Bytes, count: u16) returns (n: array<byte>)
    requires |iv| == 16
    ensures fresh(n) && n[..] == ChunkNonce(iv, count)
    ensures n.Length == 12 && n[0] as int * 256 + n[1] == count && forall i :: 2 <= i < 12 ==> n[i] == iv[i]
  {
    n := new byte[12](_ => 0);
    n[0], n[1] := count / 256, count % 256;
    forall i | 2 <= i < 12 {
      n[i] := iv[i];
    }
    assert n[..] == n[..2] + n[2..];
  }

  // ---- One chunk ----

  function PadLen(c: Config, st: Lock): nat {
    if c.Padding() && c.Masking() then c.crypto.shake(c.iv, st.pos) % 64 else 0
  }

  /** Shake128 position once the padding length has been drawn. */
  function PosAfterPad(c: Config, st: Lock): nat {
    if c.Padding() && c.Masking() then st.pos + 1 else st.pos
  }

  /** Shake128 position once the size mask has been drawn as well. */
  function PosAfterSize(c: Config, st: Lock): nat {
    if c.Masking() && !c.AuthLen() then PosAfterPad(c, st) + 1 else PosAfterPad(c, st)
  }

  function Seal(c: Config, count: u16, plain: Bytes): Bytes
    requires c.Supported() && c.Valid()
  {
    if c.sec == SEC_NONE then plain
    else if c.sec == SEC_CHACHA20 then c.crypto.chacha.seal(c.crypto.chachaKey(c.key), ChunkNonce(c.iv, count), plain)
    else c.crypto.aes.seal(c.key, ChunkNonce(c.iv, count), plain)
  }

  function Open(c: Config, count: u16, ct: Bytes): Option<Bytes>
    requires c.Supported() && c.Valid()
  {
    if c.sec == SEC_NONE then Some(ct)
    else if c.sec == SEC_CHACHA20 then c.crypto.chacha.open(c.crypto.chachaKey(c.key), ChunkNonce(c.iv, count), ct)
    else c.crypto.aes.open(c.key, ChunkNonce(c.iv, count), ct)
  }

  function DataUses(c: Config, count: u16): seq<Use>
    requires c.Valid()
  {
    if c.sec == SEC_NONE then []
    else [Use(if c.sec == SEC_CHACHA20 then c.crypto.chachaKey(c.key) else c.key, ChunkNonce(c.iv, count))]
  }

  function LenUses(c: Config, count: u16): seq<Use>
    requires c.Valid()
  {
    if c.AuthLen() then [Use(c.crypto.authLenKey(c.key), ChunkNonce(c.iv, count))] else []
  }

  function SizeField(c: Config, st: Lock, total: u16): Bytes
    requires c.Valid()
  {
    if c.AuthLen() then c.crypto.aes.seal(c.crypto.authLenKey(c.key), ChunkNonce(c.iv, Succ16(st.count)), U16(total))
    else if c.Masking() then U16(Xor16(total, c.crypto.shake(c.iv, PosAfterPad(c, st))))
    else U16(total)
  }

  datatype Encoded = Encoded(wire: Bytes, next: Lock, uses: seq<Use>)

  /** One pass of the loop of `relay_down`; `pad` are the random padding bytes. */
  function EncodeChunk(c: Config, st: Lock, plain: Bytes, pad: Bytes): Encoded
    requires c.Supported() && c.Valid()
  {
    var ct := Seal(c, st.count, plain);
    var total := (|ct| + |pad|) % 0x10000;
    Encoded(SizeField(c, st, total) + ct + pad,
            Lock(if c.AuthLen() then Succ16(Succ16(st.count)) else Succ16(st.count), PosAfterSize(c, st)),
            DataUses(c, st.count) + LenUses(c, Succ16(st.count)))
  }

  /** One pass of the loop of `relay_up`: a chunk, or the end of the loop with or without an error. */
  datatype Step =
    | Got(plain: Bytes, rest: Bytes, next: Lock, uses: seq<Use>)
    | End(ok: bool, rest: Bytes, uses: seq<Use>)

  function SizeWidth(c: Config): nat {
    if c.AuthLen() then 18 else 2
  }

  /** The size announced by a size field, and `None` when it does not authenticate (its plaintext has 2 bytes). */
  function ReadSize(c: Config, st: Lock, field: Bytes): Option<u16>
    requires c.Valid() && |field| == SizeWidth(c)
  {
    if c.AuthLen() then
      var plain := c.crypto.aes.open(c.crypto.authLenKey(c.key), ChunkNonce(c.iv, st.count), field);
      if plain.None? || |plain.value| < 2 then None else Some(GetU16(plain.value[0], plain.value[1]))
    else if c.Masking() then Some(Xor16(GetU16(field[0], field[1]), c.crypto.shake(c.iv, PosAfterPad(c, st))))
    else Some(GetU16(field[0], field[1]))
  }

  function CountAfterSize(c: Config, st: Lock): u16 {
    if c.AuthLen() then Succ16(st.count) else st.count
  }

  function DecodeChunk(c: Config, st: Lock, wire: Bytes): (r: Step)
    requires c.Valid()
    ensures r.Got? ==> |r.rest| < |wire|
  {
    if |wire| < SizeWidth(c) then End(false, [], [])
    else
      var size := ReadSize(c, st, wire[..SizeWidth(c)]);
      var used := LenUses(c, st.count);
      if size.None? then End(false, [], used)
      else DecodeBody(c, AfterSize(c, st), PadLen(c, st), size.value, wire[SizeWidth(c)..], used)
  }

  /** Counter and Shake128 position once the size has been read. */
  function AfterSize(c: Config, st: Lock): Lock {
    Lock(CountAfterSize(c, st), PosAfterSize(c, st))
  }

  /** The rest of the pass once padding length and size are known; `used` are the AEAD calls made so far. */
  function DecodeBody(c: Config, at: Lock, pad: nat, size: u16, wire: Bytes, used: seq<Use>): (r: Step)
    requires c.Valid()
    ensures r.Got? ==> |r.rest| <= |wire|
  {
    var len := if size <= pad then 0 else size - pad;
    if len == 0 then End(true, wire, used)
    else if !c.Supported() || (c.sec != SEC_NONE && len < TAG_LEN) || |wire| < len then End(false, [], used)
    else
      var plain := Open(c, at.count, wire[..len]);
      var uses := used + DataUses(c, at.count);
      if plain.None? || |wire| < len + pad then End(false, [], uses)
      else if plain.value == [] then End(true, wire[len + pad..], uses)
      else Got(plain.value, wire[len + pad..], Lock(Succ16(at.count), at.pos), uses)
  }

  // ---- Whole streams ----

  /** `rng(i, n)` are the `n` random bytes that pad chunk `i`. */
  ghost predicate Fills(rng: (nat, nat) -> Bytes) {
    forall i, n :: |rng(i, n)| == n
  }

  /** Every read of the target socket returns between 1 and `CHUNK_SIZE` bytes, and 0 bytes at its end. */
  ghost predicate ValidReads(parts: seq<Bytes>) {
    forall r :: r in parts ==> 1 <= |r| <= CHUNK_SIZE
  }

  /** All chunks from chunk `i` on, the empty EOF chunk included. */
  function Encode(c: Config, st: Lock, parts: seq<Bytes>, rng: (nat, nat) -> Bytes, i: nat): Encoded
    requires c.Supported() && c.Valid()
    decreases |parts|
  {
    var plain := if |parts| == 0 then [] else parts[0];
    var head := EncodeChunk(c, st, plain, rng(i, PadLen(c, st)));
    if |parts| == 0 then head
    else
      var tail := Encode(c, head.next, parts[1..], rng, i + 1);
      Encoded(head.wire + tail.wire, tail.next, head.uses + tail.uses)
  }

  datatype Decoded = Decoded(out: Bytes, ok: bool, rest: Bytes, uses: seq<Use>)

  function Decode(c: Config, st: Lock, wire: Bytes): Decoded
    requires c.Valid()
    decreases |wire|
  {
    match DecodeChunk(c, st, wire)
    case End(ok, rest, uses) => Decoded([], ok, rest, uses)
    case Got(plain, rest, next, uses) =>
      var d := Decode(c, next, rest);
      Decoded(plain + d.out, d.ok, d.rest, uses + d.uses)
  }

  const START := Lock(0, 0)

  /** Everything `relay_down` writes. */
  function Down(c: Config, parts: seq<Bytes>, rng: (nat, nat) -> Bytes): Bytes
    requires c.Supported() && c.Valid()
  {
    if c.Copying() then Concat(parts) else Encode(c, START, parts, rng, 0).wire
  }

  /** Everything `relay_up` delivers, and whether it ended without an error. */
  function Up(c: Config, wire: Bytes): Decoded
    requires c.Valid()
  {
    if c.Copying() then Decoded(wire, true, [], []) else Decode(c, START, wire)
  }

  // ---- The two loops ----

  method SealData(c: Config, count: u16, plain: Bytes) returns (ct: Bytes, uses: seq<Use>)
    requires c.Supported() && c.Valid()
    ensures ct == Seal(c, count, plain) && uses == DataUses(c, count)
  {
    ct, uses := plain, [];
    if c.sec != SEC_NONE {
      var nonce := FillChunkNonce(c.iv, count);
      if c.sec == SEC_CHACHA20 {
        var key := c.crypto.chachaKey(c.key);
        ct, uses := c.crypto.chacha.seal(key, nonce[..], plain), [Use(key, nonce[..])];
      } else {
        ct, uses := c.crypto.aes.seal(c.key, nonce[..], plain), [Use(c.key, nonce[..])];
      }
    }
  }

  method OpenData(c: Config, count: u16, ct: Bytes) returns (plain: Option<Bytes>, uses: seq<Use>)
    requires c.Supported() && c.Valid()
    ensures plain == Open(c, count, ct) && uses == DataUses(c, count)
  {
    plain, uses := Some(ct), [];
    if c.sec != SEC_NONE {
      var nonce := FillChunkNonce(c.iv, count);
      if c.sec == SEC_CHACHA20 {
        var key := c.crypto.chachaKey(c.key);
        plain, uses := c.crypto.chacha.open(key, nonce[..], ct), [Use(key, nonce[..])];
      } else {
        plain, uses := c.crypto.aes.open(c.key, nonce[..], ct), [Use(c.key, nonce[..])];
      }
    }
  }

  lemma Framed(sent: Bytes, field: Bytes, ct: Bytes, pad: Bytes)
    ensures sent + field + ct + pad == sent + (field + ct + pad)
    ensures pad == [] ==> sent + field + ct == sent + (field + ct + pad)
  {
    assert pad == [] ==> field + ct + pad == field + ct;
    Assoc(sent, field, ct);
    Assoc(sent, field + ct, pad);
  }

  /** The body of the loop of `relay_down`, for one read of the target socket. */
  method SendChunk(c: Config, st: Lock, plain: Bytes, rng: nat -> Bytes, w: ByteWriter)
    returns (next: Lock, uses: seq<Use>)
    requires c.Supported() && c.Valid()
    requires forall n :: |rng(n)| == n
    modifies w
    ensures var e := EncodeChunk(c, st, plain, rng(PadLen(c, st)));
            w.sent == old(w.sent) + e.wire && next == e.next && uses == e.uses
  {
    var count, pos, padLen := st.count, st.pos, 0;
    if c.Padding() && c.Masking() {
      padLen := c.crypto.shake(c.iv, pos) % 64;
      pos := pos + 1;
    }
    var ct;
    ct, uses := SealData(c, count, plain);
    count := Succ16(count);
    var total := (|ct| + padLen) % 0x10000;
    var field, more;
    field, next, more := MakeSizeField(c, st, Lock(count, pos), total);
    uses := uses + more;
    w.WriteAll(field);
    w.WriteAll(ct);
    if padLen > 0 {
      w.WriteAll(rng(padLen));
    }
    Framed(old(w.sent), field, ct, rng(padLen));
  }

  /** The size field of a chunk; `at` is where counter and Shake128 stand once the data are sealed. */
  method MakeSizeField(c: Config, ghost st: Lock, at: Lock, total: u16)
    returns (field: Bytes, next: Lock, uses: seq<Use>)
    requires c.Valid() && at == Lock(Succ16(st.count), PosAfterPad(c, st))
    ensures field == SizeField(c, st, total) && uses == LenUses(c, at.count)
    ensures next == Lock(if c.AuthLen() then Succ16(at.count) else at.count, PosAfterSize(c, st))
  {
    field, next, uses := U16(total), at, [];
    if c.AuthLen() {
      var nonce := FillChunkNonce(c.iv, at.count);
      var key := c.crypto.authLenKey(c.key);
      field, uses := c.crypto.aes.seal(key, nonce[..], U16(total)), [Use(key, nonce[..])];
      next := Lock(Succ16(at.count), at.pos);
    } else if c.Masking() {
      field := U16(Xor16(total, c.crypto.shake(c.iv, at.pos)));
      next := Lock(at.count, at.pos + 1);
    }
  }

  method RelayDown(c: Config, parts: seq<Bytes>, rng: (nat, nat) -> Bytes, w: ByteWriter)
    returns (ok: bool, uses: seq<Use>)
    requires c.Valid() && Fills(rng) && ValidReads(parts)
    modifies w
    ensures ok == c.Supported()
    ensures ok ==> w.sent == old(w.sent) + Down(c, parts, rng)
    ensures ok && !c.Copying() ==> uses == Encode(c, START, parts, rng, 0).uses
    ensures !ok ==> w.sent == old(w.sent)
  {
    uses := [];
    if c.Copying() {
      w.WriteAll(Concat(parts));
      return true, uses;
    }
    ok, uses := DownLoop(c, parts, rng, w);
  }

  /** The loop of `relay_down`; an unsupported security type ends its first pass before anything is written. */
  method DownLoop(c: Config, parts: seq<Bytes>, rng: (nat, nat) -> Bytes, w: ByteWriter)
    returns (ok: bool, uses: seq<Use>)
    requires c.Valid() && Fills(rng)
    modifies w
    ensures ok == c.Supported()
    ensures ok ==> Done(w.sent, uses) == Behind(old(w.sent), [], Encode(c, START, parts, rng, 0))
    ensures !ok ==> w.sent == old(w.sent)
  {
    uses := [];
    if !c.Supported() {
      return false, uses;
    }
    var st, i, isEof := START, 0, false;
    ghost var goal := Behind(w.sent, [], Encode(c, START, parts, rng, 0));
    assert parts[0..] == parts;
    while !isEof
      invariant i <= |parts|
      invariant goal == if isEof then Done(w.sent, uses) else Behind(w.sent, uses, Encode(c, st, parts[i..], rng, i))
      decreases |parts| - i, !isEof
    {
      isEof := i == |parts|;
      st, uses := DownPass(c, st, parts, i, rng, w, uses);
      if !isEof {
        i := i + 1;
      }
    }
    ok := true;
  }

  /** One pass of the loop of `relay_down`: chunk `i`, or the EOF chunk behind the last one. */
  method DownPass(c: Config, st: Lock, parts: seq<Bytes>, i: nat, rng: (nat, nat) -> Bytes, w: ByteWriter,
                  uses: seq<Use>)
    returns (next: Lock, now: seq<Use>)
    requires c.Supported() && c.Valid() && Fills(rng) && i <= |parts|
    modifies w
    ensures Behind(old(w.sent), uses, Encode(c, st, parts[i..], rng, i))
         == if i == |parts| then Done(w.sent, now)
            else Behind(w.sent, now, Encode(c, next, parts[i + 1..], rng, i + 1))
  {
    EncodeRest(c, st, parts, rng, i, w.sent, uses);
    var plain := if i == |parts| then [] else parts[i];
    var more;
    next, more := SendChunk(c, st, plain, n => rng(i, n), w);
    now := uses + more;
  }

  /** What has been written and which AEAD calls have been made. */
  datatype Written = Done(sent: Bytes, uses: seq<Use>)

  function Behind(sent: Bytes, uses: seq<Use>, e: Encoded): Written {
    Done(sent + e.wire, uses + e.uses)
  }

  /** One chunk goes behind what was written, and then the rest. */
  lemma EncodeRest(c: Config, st: Lock, parts: seq<Bytes>, rng: (nat, nat) -> Bytes, i: nat,
                   sent: Bytes, uses: seq<Use>)
    requires i <= |parts|
    ensures c.Supported() && c.Valid() ==>
              var plain := if i == |parts| then [] else parts[i];
              var head := EncodeChunk(c, st, plain, rng(i, PadLen(c, st)));
              var now := Behind(sent, uses, head);
              Behind(sent, uses, Encode(c, st, parts[i..], rng, i))
              == if i == |parts| then now
                 else Behind(now.sent, now.uses, Encode(c, head.next, parts[i + 1..], rng, i + 1))
  {
    if c.Supported() && c.Valid() && i < |parts| {
      assert parts[i..][1..] == parts[i + 1..];
      var head := EncodeChunk(c, st, parts[i], rng(i, PadLen(c, st)));
      var tail := Encode(c, head.next, parts[i + 1..], rng, i + 1);
      Assoc(sent, head.wire, tail.wire);
      Assoc(uses, head.uses, tail.uses);
    }
  }

  /** The body of the loop of `relay_up`: reads and opens one chunk. */
  method ReceiveChunk(c: Config, st: Lock, r: ByteReader) returns (step: Step)
    requires c.Valid()
    modifies r
    ensures step == DecodeChunk(c, st, old(r.data))
    ensures step.Got? || step.ok ==> r.data == step.rest
  {
    var count, pos, padLen := st.count, st.pos, 0;
    var used: seq<Use> := [];
    if c.Padding() && c.Masking() {
      padLen := c.crypto.shake(c.iv, pos) % 64;
      pos := pos + 1;
    }
    var field := r.ReadExact(SizeWidth(c));
    if field.None? {
      return End(false, [], used);
    }
    var total := GetU16(field.value[0], field.value[1]);
    if c.AuthLen() {
      var nonce := FillChunkNonce(c.iv, count);
      var key := c.crypto.authLenKey(c.key);
      used := [Use(key, nonce[..])];
      var plain := c.crypto.aes.open(key, nonce[..], field.value);
      if plain.None? || |plain.value| < 2 {
        return End(false, [], used);
      }
      count := Succ16(count);
      total := GetU16(plain.value[0], plain.value[1]);
    } else if c.Masking() {
      total := Xor16(total, c.crypto.shake(c.iv, pos));
      pos := pos + 1;
    }
    assert ReadSize(c, st, field.value) == Some(total) && used == LenUses(c, st.count);
    step := ReceiveBody(c, Lock(count, pos), padLen, total, r, used);
  }

  method ReceiveBody(c: Config, at: Lock, padLen: nat, total: u16, r: ByteReader, used: seq<Use>)
    returns (step: Step)
    requires c.Valid()
    modifies r
    ensures step == DecodeBody(c, at, padLen, total, old(r.data), used)
    ensures step.Got? || step.ok ==> r.data == step.rest
  {
    var len := if total <= padLen then 0 else total - padLen;
    if len == 0 {
      return End(true, r.data, used);
    }
    if !c.Supported() || (c.sec != SEC_NONE && len < TAG_LEN) {
      return End(false, [], used);
    }
    var ct := r.ReadExact(len);
    if ct.None? {
      return End(false, [], used);
    }
    var plain;
    var uses;
    plain, uses := OpenData(c, at.count, ct.value);
    uses := used + uses;
    if plain.None? {
      return End(false, [], uses);
    }
    if padLen > 0 {
      var skip := r.ReadExact(padLen);
      if skip.None? {
        return End(false, [], uses);
      }
    }
    assert r.data == old(r.data)[len + padLen..] by {
      DropDrop(old(r.data), len, padLen);
    }
    if |plain.value| == 0 {
      return End(true, r.data, uses);
    }
    step := Got(plain.value, r.data, Lock(Succ16(at.count), at.pos), uses);
  }

  method RelayUp(c: Config, r: ByteReader, w: ByteWriter) returns (ok: bool, uses: seq<Use>)
    requires c.Valid()
    modifies r, w
    ensures var up := Up(c, old(r.data));
            && w.sent == old(w.sent) + up.out && ok == up.ok && uses == up.uses
            && (ok ==> r.data == up.rest)
  {
    uses := [];
    if c.Copying() {
      w.WriteAll(r.data);
      r.data := [];
      return true, uses;
    }
    ok, uses := UpLoop(c, r, w);
  }

  /** The loop of `relay_up`. */
  method UpLoop(c: Config, r: ByteReader, w: ByteWriter) returns (ok: bool, uses: seq<Use>)
    requires c.Valid()
    modifies r, w
    ensures var d := Decode(c, START, old(r.data));
            && w.sent == old(w.sent) + d.out && ok == d.ok && uses == d.uses
            && (ok ==> r.data == d.rest)
  {
    uses := [];
    var st := START;
    ghost var all := Decode(c, START, r.data);
    while true
      invariant var d := Decode(c, st, r.data);
                && w.sent + d.out == old(w.sent) + all.out && d.ok == all.ok
                && (d.ok ==> d.rest == all.rest) && uses + d.uses == all.uses
      decreases |r.data|
    {
      ghost var used := uses;
      var step := ReceiveChunk(c, st, r);
      uses := uses + step.uses;
      if step.End? {
        return step.ok, uses;
      }
      st := step.next;
      ghost var sent := w.sent;
      w.WriteAll(step.plain);
      ghost var tail := Decode(c, st, r.data);
      Assoc(sent, step.plain, tail.out);
      Assoc(used, step.uses, tail.uses);
    }
  }
}
