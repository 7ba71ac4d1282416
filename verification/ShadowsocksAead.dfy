/** The chunked AEAD stream of Shadowsocks 2022: nonce, writer and reader (src/shadowsocks/protocol.rs). */
module ShadowsocksAead {
  import opened Bytes
  import opened AeadLaws

  const MAX_CHUNK := 0x3FFF

  // ---- The nonce ----

  /** Add one to a little-endian number, dropping the carry out of the last byte. */
  function Increment(n: Bytes): (r: Bytes)
    ensures |r| == |n|
  {
    if |n| == 0 then []
    else [WrappingSucc(n[0])] + if WrappingSucc(n[0]) != 0 then n[1..] else Increment(n[1..])
  }

  function WrappingSucc(b: byte): byte {
    if b == 255 then 0 else b + 1
  }

  method IncrementNonce(n: array<byte>)
    modifies n
    ensures n[..] == Increment(old(n[..]))
  {
    ghost var was := n[..];
    var i := 0;
    Prefixed([], was, was);
    while i < n.Length
      invariant 0 <= i <= n.Length && n[i..] == was[i..]
      invariant Increment(was) == n[..i] + Increment(was[i..])
    {
      ghost var done := n[..i];
      n[i] := WrappingSucc(n[i]);
      Stepped(was, done, n[..], i);
      if n[i] != 0 {
        return;
      }
      i := i + 1;
    }
    Prefixed(n[..], was[i..], n[..]);
  }

  lemma Prefixed(a: Bytes, b: Bytes, c: Bytes)
    ensures a == [] && b == c ==> a + Increment(b) == Increment(c)
    ensures b == [] && a == c ==> a + Increment(b) == c
  {
  }

  /** One pass of the loop: byte `i` has been stepped, the ones before it in `done` already, the later ones not yet. */
  lemma Stepped(was: Bytes, done: Bytes, now: Bytes, i: nat)
    requires i < |was| == |now| && |done| == i && Increment(was) == done + Increment(was[i..])
    requires now[..i] == done && now[i] == WrappingSucc(was[i]) && now[i + 1..] == was[i + 1..]
    ensures now[i] != 0 ==> Increment(was) == now
    ensures now[i] == 0 ==> Increment(was) == now[..i + 1] + Increment(was[i + 1..])
  {
    var tail, more := was[i..], was[i + 1..];
    assert tail[0] == was[i] && tail[1..] == more;
    Around(now, i);
    Assoc(done, [now[i]], if now[i] != 0 then more else Increment(more));
  }

  lemma Around(s: Bytes, i: nat)
    requires i < |s|
    ensures s == s[..i] + [s[i]] + s[i + 1..] && s[..i + 1] == s[..i] + [s[i]]
  {
  }

  /** The nonce of the `i`-th AEAD call under one subkey. */
  function NonceAt(i: nat): (n: Bytes)
    ensures |n| == NONCE_LEN
  {
    if i == 0 then seq(NONCE_LEN, _ => 0) else Increment(NonceAt(i - 1))
  }

  // ---- The wire ----

  /** A length in two bytes; the cast of the high part keeps 8 bits. */
  function LenBytes(n: nat): (b: Bytes)
    ensures |b| == 2
  {
    U16(n % 0x10000)
  }

  function ChunkWire(a: Aead, key: Bytes, ctr: nat, plain: Bytes): Bytes {
    a.seal(key, NonceAt(ctr), LenBytes(|plain|)) + a.seal(key, NonceAt(ctr + 1), plain)
  }

  function Wire(a: Aead, key: Bytes, ctr: nat, chunks: seq<Bytes>): Bytes
    decreases |chunks|
  {
    if |chunks| == 0 then [] else ChunkWire(a, key, ctr, chunks[0]) + Wire(a, key, ctr + 2, chunks[1..])
  }

  class AeadWriter {
    const aead: Aead
    const inner: ByteWriter
    var subkey: Bytes
    var nonce: array<byte>
    /** The nonces sealed with since the subkey was set. */
    ghost var seals: seq<Bytes>

    ghost predicate Valid()
      reads this, nonce
    {
      nonce.Length == NONCE_LEN && nonce[..] == NonceAt(|seals|) && SealsInOrder(seals)
    }

    constructor (aead: Aead, inner: ByteWriter, subkey: Bytes)
      ensures Valid() && fresh(nonce) && seals == []
      ensures this.aead == aead && this.inner == inner && this.subkey == subkey
    {
      this.aead, this.inner, this.subkey, this.seals := aead, inner, subkey, [];
      nonce := new byte[NONCE_LEN](_ => 0);
    }

    method ResetSubkey(newSubkey: Bytes)
      modifies this
      ensures Valid() && fresh(nonce) && seals == [] && subkey == newSubkey
    {
      subkey, seals := newSubkey, [];
      nonce := new byte[NONCE_LEN](_ => 0);
    }

    /** Seal one plaintext and step the nonce. */
    method SealNext(plain: Bytes) returns (ct: Bytes)
      requires Valid()
      modifies nonce, this`seals
      ensures Valid() && ct == aead.seal(subkey, NonceAt(old(|seals|)), plain)
      ensures seals == old(seals) + [NonceAt(old(|seals|))]
    {
      ct := aead.seal(subkey, nonce[..], plain);
      seals := seals + [nonce[..]];
      IncrementNonce(nonce);
    }

    method WriteHeaderChunk(data: Bytes)
      requires Valid()
      modifies nonce, this`seals, inner
      ensures Valid() && |seals| == old(|seals|) + 2
      ensures inner.sent == old(inner.sent) + ChunkWire(aead, subkey, old(|seals|), data)
    {
      var lenCt := SealNext(LenBytes(|data|));
      var payloadCt := SealNext(data);
      inner.WriteAll(lenCt);
      inner.WriteAll(payloadCt);
      Assoc(old(inner.sent), lenCt, payloadCt);
    }

    method WriteData(data: Bytes)
      requires Valid()
      modifies nonce, this`seals, inner
      ensures Valid() && |seals| == old(|seals|) + 2 * |Chunks(data, MAX_CHUNK)|
      ensures inner.sent == old(inner.sent) + Wire(aead, subkey, old(|seals|), Chunks(data, MAX_CHUNK))
    {
      var offset := 0;
      ghost var all := Wire(aead, subkey, |seals|, Chunks(data, MAX_CHUNK));
      assert data[0..] == data;
      while offset < |data|
        invariant 0 <= offset <= |data| && Valid()
        invariant var todo := Chunks(data[offset..], MAX_CHUNK);
                  && inner.sent + Wire(aead, subkey, |seals|, todo) == old(inner.sent) + all
                  && |seals| + 2 * |todo| == old(|seals|) + 2 * |Chunks(data, MAX_CHUNK)|
      {
        var chunkLen := Min(|data| - offset, MAX_CHUNK);
        var chunk := data[offset..offset + chunkLen];
        ghost var sent, ctr := inner.sent, |seals|;
        ghost var rest := Chunks(data[offset + chunkLen..], MAX_CHUNK);
        FirstChunk(data[offset..], chunk, data[offset + chunkLen..]);
        WriteHeaderChunk(chunk);
        Assoc(sent, ChunkWire(aead, subkey, ctr, chunk), Wire(aead, subkey, ctr + 2, rest));
        offset := offset + chunkLen;
      }
    }
  }

  lemma FirstChunk(todo: Bytes, chunk: Bytes, more: Bytes)
    requires todo != [] && todo == chunk + more && |chunk| == Min(|todo|, MAX_CHUNK)
    ensures Chunks(todo, MAX_CHUNK) == [chunk] + Chunks(more, MAX_CHUNK)
  {
    assert todo[..|chunk|] == chunk && todo[|chunk|..] == more;
  }

  ghost predicate SealsInOrder(seals: seq<Bytes>) {
    forall i :: 0 <= i < |seals| ==> seals[i] == NonceAt(i)
  }

  // ---- The reader ----

  datatype Res = Plain(p: Bytes) | Eof | Bad

  /** The state of a reader: AEAD calls so far, decrypted bytes not yet handed out, and the wire still to come. */
  datatype Reader = Reader(ctr: nat, buf: Bytes, input: Bytes)

  datatype ChunkRead = ChunkRead(res: Res, ctr: nat, input: Bytes)

  /** One length and one payload off the wire; running dry before the length is the clean end of the stream. */
  function ReadChunk(a: Aead, key: Bytes, ctr: nat, input: Bytes): (r: ChunkRead)
    ensures r.res.Plain? ==> |r.input| < |input|
  {
    if |input| < 2 + TAG_LEN then ChunkRead(Eof, ctr, [])
    else
      var len := a.open(key, NonceAt(ctr), input[..2 + TAG_LEN]);
      var rest := input[2 + TAG_LEN..];
      if len.None? || |len.value| < 2 then ChunkRead(Bad, ctr, rest)
      else
        var need := GetU16(len.value[0], len.value[1]) + TAG_LEN;
        if |rest| < need then ChunkRead(Bad, ctr + 1, [])
        else
          match a.open(key, NonceAt(ctr + 1), rest[..need])
          case None => ChunkRead(Bad, ctr + 1, rest[need..])
          case Some(p) => ChunkRead(Plain(p), ctr + 2, rest[need..])
  }

  /** The reader after a chunk was read into its buffer. */
  function Filled(r: Reader, c: ChunkRead): Reader {
    Reader(c.ctr, if c.res.Plain? then r.buf + c.res.p else r.buf, c.input)
  }

  /** A reader and what a call returned; `None` is an error. */
  datatype PlainRead = PlainRead(r: Reader, got: Option<Bytes>)

  function TakeBuf(r: Reader, n: nat): PlainRead {
    var m := Min(|r.buf|, n);
    PlainRead(r.(buf := r.buf[m..]), Some(r.buf[..m]))
  }

  /** Where chunks come from: what a read at that counter and input gives. */
  type Source = (nat, Bytes) -> ChunkRead

  function Chunked(a: Aead, key: Bytes): Source {
    (ctr: nat, input: Bytes) => ReadChunk(a, key, ctr, input)
  }

  function PlainOf(read: Source, r: Reader, n: nat): PlainRead {
    if |r.buf| > 0 then TakeBuf(r, n)
    else
      var c := read(r.ctr, r.input);
      match c.res
      case Eof => PlainRead(Filled(r, c), Some([]))
      case Bad => PlainRead(Filled(r, c), None)
      case Plain(p) => TakeBuf(Filled(r, c), n)
  }

  function Prepend(head: Bytes, more: PlainRead): PlainRead {
    PlainRead(more.r, if more.got.None? then None else Some(head + more.got.value))
  }

  lemma PrependTwice(a: Bytes, b: Bytes, more: PlainRead)
    ensures Prepend(a, Prepend(b, more)) == Prepend(a + b, more)
    ensures Prepend([], more) == more
  {
    if more.got.Some? {
      Assoc(a, b, more.got.value);
      assert [] + more.got.value == more.got.value;
    }
  }

  function ExactOf(read: Source, r: Reader, n: nat): PlainRead
    decreases |r.input|, n
  {
    if n == 0 then PlainRead(r, Some([]))
    else if |r.buf| > 0 then
      var m := Min(|r.buf|, n);
      Prepend(r.buf[..m], ExactOf(read, r.(buf := r.buf[m..]), n - m))
    else
      var c := read(r.ctr, r.input);
      if c.res.Plain? && |c.input| < |r.input| then ExactOf(read, Filled(r, c), n) else PlainRead(Filled(r, c), None)
  }

  lemma ExactNone(read: Source, dst: Bytes, r: Reader)
    ensures Prepend(dst, ExactOf(read, r, 0)) == PlainRead(r, Some(dst))
  {
    assert dst + [] == dst;
  }

  lemma ExactOfBuffer(read: Source, r: Reader, n: nat, m: nat)
    requires n > 0 && |r.buf| > 0 && m == Min(|r.buf|, n)
    ensures ExactOf(read, r, n) == Prepend(r.buf[..m], ExactOf(read, r.(buf := r.buf[m..]), n - m))
  {
  }

  lemma ExactOfChunk(read: Source, r: Reader, n: nat)
    requires n > 0 && r.buf == []
    ensures var c := read(r.ctr, r.input);
            ExactOf(read, r, n)
            == if c.res.Plain? && |c.input| < |r.input| then ExactOf(read, Filled(r, c), n)
               else PlainRead(Filled(r, c), None)
  {
  }

  /** The same with `dst` read before. */
  lemma ExactMore(read: Source, dst: Bytes, r: Reader, n: nat, m: nat)
    requires n > 0 && |r.buf| > 0 && m == Min(|r.buf|, n)
    ensures Prepend(dst + r.buf[..m], ExactOf(read, r.(buf := r.buf[m..]), n - m))
         == Prepend(dst, ExactOf(read, r, n))
  {
    ExactOfBuffer(read, r, n, m);
    PrependTwice(dst, r.buf[..m], ExactOf(read, r.(buf := r.buf[m..]), n - m));
  }

  function HeaderOf(read: Source, r: Reader): PlainRead {
    var c := read(r.ctr, r.input);
    PlainRead(Reader(c.ctr, r.buf, c.input), if c.res.Plain? then Some(c.res.p) else None)
  }

  class AeadReader {
    const aead: Aead
    const inner: ByteReader
    const subkey: Bytes
    const nonce: array<byte>
    var buf: Bytes
    ghost var ctr: nat

    ghost predicate Valid()
      reads this, nonce
    {
      nonce.Length == NONCE_LEN && nonce[..] == NonceAt(ctr)
    }

    ghost function View(): Reader
      reads this, inner
    {
      Reader(ctr, buf, inner.data)
    }

    constructor (aead: Aead, inner: ByteReader, subkey: Bytes)
      ensures Valid() && fresh(nonce) && this.aead == aead && this.inner == inner && this.subkey == subkey
      ensures View() == Reader(0, [], inner.data)
    {
      this.aead, this.inner, this.subkey, this.buf, this.ctr := aead, inner, subkey, [], 0;
      nonce := new byte[NONCE_LEN](_ => 0);
    }

    /** Open one ciphertext; the nonce steps only if it opens. */
    method OpenNext(ct: Bytes, atLeast: nat) returns (plain: Option<Bytes>)
      requires Valid()
      modifies nonce, this`ctr
      ensures var p := aead.open(subkey, NonceAt(old(ctr)), ct);
              plain == if p.None? || |p.value| < atLeast then None else p
      ensures Valid() && ctr == if plain.None? then old(ctr) else old(ctr) + 1
    {
      plain := aead.open(subkey, nonce[..], ct);
      if plain.None? || |plain.value| < atLeast {
        return None;
      }
      IncrementNonce(nonce);
      ctr := ctr + 1;
    }

    /** The common part of `fill_buf` and `read_header_chunk`. */
    method ReadOne() returns (res: Res)
      requires Valid()
      modifies inner, nonce, this`ctr
      ensures Valid()
      ensures ReadChunk(aead, subkey, old(ctr), old(inner.data)) == ChunkRead(res, ctr, inner.data)
    {
      var lenCt := inner.ReadExact(2 + TAG_LEN);
      if lenCt.None? {
        return Eof;
      }
      var lenPt := OpenNext(lenCt.value, 2);
      if lenPt.None? {
        return Bad;
      }
      var payloadCt := inner.ReadExact(GetU16(lenPt.value[0], lenPt.value[1]) + TAG_LEN);
      if payloadCt.None? {
        return Bad;
      }
      var plain := OpenNext(payloadCt.value, 0);
      res := if plain.None? then Bad else Plain(plain.value);
    }

    /** `fill_buf`: `Some(false)` at the clean end of the stream, `None` on an error. */
    method FillBuf() returns (r: Option<bool>)
      requires Valid()
      modifies inner, nonce, this`ctr, this`buf
      ensures Valid()
      ensures var c := ReadChunk(aead, subkey, old(ctr), old(inner.data));
              && View() == Filled(old(View()), c)
              && r == match c.res case Eof => Some(false) case Bad => None case Plain(_) => Some(true)
    {
      var res := ReadOne();
      match res {
        case Eof => r := Some(false);
        case Bad => r := None;
        case Plain(p) =>
          buf := buf + p;
          r := Some(true);
      }
    }

    method ReadPlain(n: nat) returns (got: Option<Bytes>)
      requires Valid()
      modifies inner, nonce, this`ctr, this`buf
      ensures Valid()
      ensures PlainOf(Chunked(aead, subkey), old(View()), n) == PlainRead(View(), got)
    {
      if |buf| == 0 {
        var filled := FillBuf();
        if filled.None? {
          return None;
        }
        if !filled.value {
          return Some([]);
        }
      }
      var m := Min(|buf|, n);
      got := Some(buf[..m]);
      buf := buf[m..];
    }

    /** `fill_buf` in the loop of `read_exact_plain`, where the end of the stream is an error as well. */
    method FillForExact(ghost n: nat) returns (ok: bool)
      requires Valid() && n > 0 && |buf| == 0
      modifies inner, nonce, this`ctr, this`buf
      ensures Valid()
      ensures ExactOf(Chunked(aead, subkey), old(View()), n)
           == if ok then ExactOf(Chunked(aead, subkey), View(), n) else PlainRead(View(), None)
      ensures ok ==> |inner.data| < old(|inner.data|)
    {
      ExactOfChunk(Chunked(aead, subkey), View(), n);
      var filled := FillBuf();
      ok := filled == Some(true);
    }

    /** Up to `n` bytes out of the buffer; `dst` was read before. */
    method TakeForExact(ghost dst: Bytes, n: nat) returns (part: Bytes)
      requires Valid() && n > 0 && |buf| > 0
      modifies this`buf
      ensures Valid() && 0 < |part| <= n
      ensures Prepend(dst + part, ExactOf(Chunked(aead, subkey), View(), n - |part|))
           == Prepend(dst, ExactOf(Chunked(aead, subkey), old(View()), n))
    {
      var m := Min(|buf|, n);
      ExactMore(Chunked(aead, subkey), dst, View(), n, m);
      part := buf[..m];
      buf := buf[m..];
    }

    /** One pass of the loop of `read_exact_plain`, with `k` bytes still to be read. */
    method ExactPass(ghost dst: Bytes, k: nat) returns (part: Option<Bytes>)
      requires Valid() && k > 0
      modifies inner, nonce, this`ctr, this`buf
      ensures Valid()
      ensures part.None? ==> ExactOf(Chunked(aead, subkey), old(View()), k) == PlainRead(View(), None)
      ensures part.Some? ==> |part.value| <= k && (|part.value| > 0 || |inner.data| < old(|inner.data|))
      ensures part.Some? ==> |inner.data| <= old(|inner.data|)
      ensures part.Some? ==> Prepend(dst + part.value, ExactOf(Chunked(aead, subkey), View(), k - |part.value|))
                             == Prepend(dst, ExactOf(Chunked(aead, subkey), old(View()), k))
    {
      if |buf| == 0 {
        var filled := FillForExact(k);
        if !filled {
          return None;
        }
      }
      if |buf| > 0 {
        var some := TakeForExact(dst, k);
        part := Some(some);
      } else {
        assert dst + [] == dst;
        part := Some([]);
      }
    }

    method ReadExactPlain(n: nat) returns (got: Option<Bytes>)
      requires Valid()
      modifies inner, nonce, this`ctr, this`buf
      ensures Valid()
      ensures ExactOf(Chunked(aead, subkey), old(View()), n) == PlainRead(View(), got)
    {
      var dst: Bytes := [];
      ghost var all := ExactOf(Chunked(aead, subkey), View(), n);
      PrependTwice([], [], all);
      while |dst| < n
        invariant |dst| <= n && Valid()
        invariant Prepend(dst, ExactOf(Chunked(aead, subkey), View(), n - |dst|)) == all
        decreases |inner.data|, n - |dst|
      {
        var part := ExactPass(dst, n - |dst|);
        if part.None? {
          return None;
        }
        dst := dst + part.value;
      }
      ExactNone(Chunked(aead, subkey), dst, View());
      got := Some(dst);
    }

    method ReadHeaderChunk() returns (got: Option<Bytes>)
      requires Valid()
      modifies inner, nonce, this`ctr
      ensures Valid()
      ensures HeaderOf(Chunked(aead, subkey), old(View())) == PlainRead(View(), got)
    {
      var res := ReadOne();
      got := if res.Plain? then Some(res.p) else None;
    }
  }
}
