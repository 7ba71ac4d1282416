/** Reader against writer, and the life of the nonce, in the Shadowsocks 2022 stream. */
module ShadowsocksProofs {
  import opened Bytes
  import opened AeadLaws
  import opened ShadowsocksAead

  // ---- The nonce is a 96-bit counter ----

  function LeValue(n: Bytes): nat {
    if |n| == 0 then 0 else n[0] + 256 * LeValue(n[1..])
  }

  lemma {:induction false} LeBounded(n: Bytes)
    ensures LeValue(n) < Pow256(|n|)
  {
    if |n| == 0 {
    } else {
      LeBounded(n[1..]);
    }
  }

  lemma {:induction false} IncrementWraps(n: Bytes)
    ensures LeValue(Increment(n)) == if LeValue(n) + 1 == Pow256(|n|) then 0 else LeValue(n) + 1
  {
    if |n| == 0 {
    } else {
      LeBounded(n[1..]);
      var more := if WrappingSucc(n[0]) != 0 then n[1..] else Increment(n[1..]);
      assert Increment(n)[1..] == more;
      IncrementWraps(n[1..]);
    }
  }

  /** `increment_nonce` is addition of 1 modulo 256 to the number of bytes. */
  lemma IncrementIsSucc(n: Bytes)
    ensures LeValue(Increment(n)) == (LeValue(n) + 1) % Pow256(|n|)
  {
    IncrementWraps(n);
    LeBounded(n);
    ModOnce(LeValue(n) + 1, Pow256(|n|));
  }

  lemma ModOnce(v: nat, m: nat)
    requires 0 < v <= m
    ensures v % m == if v == m then 0 else v
  {
    DivMod(v, m, if v == m then 1 else 0, if v == m then 0 else v);
  }

  lemma {:induction false} LeInjective(a: Bytes, b: Bytes)
    requires |a| == |b| && LeValue(a) == LeValue(b)
    ensures a == b
  {
    if |a| == 0 {
    } else {
      LowByte(a[0], LeValue(a[1..]), b[0], LeValue(b[1..]));
      LeInjective(a[1..], b[1..]);
      assert a == [a[0]] + a[1..] && b == [b[0]] + b[1..];
    }
  }

  lemma LowByte(x: byte, p: nat, y: byte, q: nat)
    requires x + 256 * p == y + 256 * q
    ensures x == y && p == q
  {
  }

  lemma ModSucc(i: nat, m: nat)
    requires m > 0
    ensures (i % m + 1) % m == (i + 1) % m
  {
    DivModBack(i, m);
    var q, r := i / m, i % m;
    OneMore(q, m);
    if r + 1 == m {
      DivMod(i + 1, m, q + 1, 0);
      DivMod(m, m, 1, 0);
    } else {
      DivMod(i + 1, m, q, r + 1);
      DivMod(r + 1, m, 0, r + 1);
    }
  }

  lemma OneMore(q: nat, m: nat)
    ensures (q + 1) * m == q * m + m
  {
  }

  lemma {:induction false} NonceValue(i: nat)
    ensures LeValue(NonceAt(i)) == i % Pow256(NONCE_LEN)
  {
    if i == 0 {
      ZeroValue(NONCE_LEN);
    } else {
      NonceValue(i - 1);
      NextValue(NonceAt(i - 1), i - 1, Pow256(NONCE_LEN));
    }
  }

  lemma NextValue(n: Bytes, i: nat, m: nat)
    requires m == Pow256(|n|) && LeValue(n) == i % m
    ensures LeValue(Increment(n)) == (i + 1) % m
  {
    IncrementIsSucc(n);
    ModSucc(i, m);
  }

  lemma {:induction false} ZeroValue(n: nat)
    ensures LeValue(seq(n, _ => 0)) == 0
  {
    if n == 0 {
    } else {
      ZeroValue(n - 1);
      var z: Bytes := seq(n, _ => 0);
      assert z[1..] == seq(n - 1, _ => 0);
    }
  }

  /** Two AEAD calls under one subkey share a nonce exactly when they are a multiple of 2^96 calls apart. */
  lemma NonceRepeatsIff(i: nat, j: nat)
    ensures NonceAt(i) == NonceAt(j) <==> i % Pow256(NONCE_LEN) == j % Pow256(NONCE_LEN)
  {
    NonceValue(i);
    NonceValue(j);
    if i % Pow256(NONCE_LEN) == j % Pow256(NONCE_LEN) {
      LeInjective(NonceAt(i), NonceAt(j));
    }
  }

  /** A writer's seals since its subkey was set (`AeadWriter.Valid`) are distinct exactly while there are at
      most 2^96. */
  lemma SealsDistinctIff(seals: seq<Bytes>)
    requires SealsInOrder(seals)
    ensures (forall i, j :: 0 <= i < j < |seals| ==> seals[i] != seals[j]) <==> |seals| <= Pow256(NONCE_LEN)
  {
    var m := Pow256(NONCE_LEN);
    if |seals| <= m {
      forall i, j | 0 <= i < j < |seals|
        ensures seals[i] != seals[j]
      {
        NonceRepeatsIff(i, j);
        DivMod(i, m, 0, i);
        DivMod(j, m, 0, j);
      }
    } else {
      NonceRepeatsIff(0, m);
      DivMod(m, m, 1, 0);
      DivMod(0, m, 0, 0);
      assert seals[0] == NonceAt(0) && seals[m] == NonceAt(m);
    }
  }

  // ---- One chunk ----

  lemma Slices(a: Bytes, b: Bytes, t: Bytes)
    ensures (a + b + t)[..|a|] == a && (a + b + t)[|a|..] == b + t
    ensures (b + t)[..|b|] == b && (b + t)[|b|..] == t
  {
  }

  lemma LenReads(n: nat)
    requires n < 0x10000
    ensures GetU16(LenBytes(n)[0], LenBytes(n)[1]) == n
  {
  }

  /** A whole chunk reads back, and the reader's nonce is where the writer's is. */
  lemma ChunkLockStep(a: Aead, key: Bytes, ctr: nat, plain: Bytes, tail: Bytes)
    requires a.Lawful() && |plain| < 0x10000
    ensures ReadChunk(a, key, ctr, ChunkWire(a, key, ctr, plain) + tail) == ChunkRead(Plain(plain), ctr + 2, tail)
  {
    var lenCt, ct := a.seal(key, NonceAt(ctr), LenBytes(|plain|)), a.seal(key, NonceAt(ctr + 1), plain);
    Slices(lenCt, ct, tail);
    LenReads(|plain|);
  }

  /** On a chunk that was cut short the reader reports the end or an error, and nothing is left to read. */
  lemma CutChunk(a: Aead, key: Bytes, ctr: nat, plain: Bytes, k: nat)
    requires a.Lawful() && |plain| < 0x10000 && k < |ChunkWire(a, key, ctr, plain)|
    ensures var c := ReadChunk(a, key, ctr, ChunkWire(a, key, ctr, plain)[..k]); !c.res.Plain? && c.input == []
  {
    var lenCt, ct := a.seal(key, NonceAt(ctr), LenBytes(|plain|)), a.seal(key, NonceAt(ctr + 1), plain);
    var cut := (lenCt + ct)[..k];
    if k >= 2 + TAG_LEN {
      assert cut[..2 + TAG_LEN] == lenCt;
      LenReads(|plain|);
    }
  }

  /** A header survives exactly when its length fits in 16 bits. */
  lemma HeaderRoundTripIff(a: Aead, key: Bytes, ctr: nat, header: Bytes, buf: Bytes, tail: Bytes)
    requires a.Lawful()
    ensures (HeaderOf(Chunked(a, key), Reader(ctr, buf, ChunkWire(a, key, ctr, header) + tail))
             == PlainRead(Reader(ctr + 2, buf, tail), Some(header)))
       <==> |header| < 0x10000
  {
    if |header| < 0x10000 {
      ChunkLockStep(a, key, ctr, header, tail);
    } else {
      LongHeader(a, key, ctr, header, tail);
    }
  }

  lemma LongHeader(a: Aead, key: Bytes, ctr: nat, header: Bytes, tail: Bytes)
    requires a.Lawful() && |header| >= 0x10000
    ensures ReadChunk(a, key, ctr, ChunkWire(a, key, ctr, header) + tail).res != Plain(header)
  {
    var lenCt, ct := a.seal(key, NonceAt(ctr), LenBytes(|header|)), a.seal(key, NonceAt(ctr + 1), header);
    Slices(lenCt, ct, tail);
    LenReads(|header| % 0x10000);
  }

  // ---- Whole streams ----

  /** Chunks whose length fits in the length field. */
  ghost predicate Small(chunks: seq<Bytes>) {
    forall c :: c in chunks ==> |c| < 0x10000
  }

  /** Chunks the writer may produce from data. */
  ghost predicate DataChunks(chunks: seq<Bytes>) {
    forall c :: c in chunks ==> 0 < |c| <= MAX_CHUNK
  }

  /** The reader's input is the writer's wire for these chunks, or a truncation of it. */
  ghost predicate InStep(a: Aead, key: Bytes, r: Reader, chunks: seq<Bytes>) {
    r.input == [] || r.input <= Wire(a, key, r.ctr, chunks)
  }

  ghost predicate Whole(a: Aead, key: Bytes, r: Reader, chunks: seq<Bytes>) {
    r.input == Wire(a, key, r.ctr, chunks)
  }

  lemma PrefixSplit(input: Bytes, head: Bytes, more: Bytes)
    requires input <= head + more
    ensures |input| < |head| ==> input == head[..|input|]
    ensures |input| >= |head| ==> input[|head|..] <= more && input == head + input[|head|..]
  {
  }

  /** The wire starts with a whole chunk or ends inside one. */
  lemma HeadOfWire(a: Aead, key: Bytes, r: Reader, chunks: seq<Bytes>)
    requires a.Lawful() && |chunks| > 0 && |chunks[0]| < 0x10000 && r.input <= Wire(a, key, r.ctr, chunks)
    ensures var c := ReadChunk(a, key, r.ctr, r.input);
            var more := Wire(a, key, r.ctr + 2, chunks[1..]);
            if |r.input| >= |ChunkWire(a, key, r.ctr, chunks[0])|
            then c == ChunkRead(Plain(chunks[0]), r.ctr + 2, c.input) && c.input <= more
                 && (Whole(a, key, r, chunks) ==> c.input == more)
            else !c.res.Plain? && c.input == [] && !Whole(a, key, r, chunks)
  {
    var head, more := ChunkWire(a, key, r.ctr, chunks[0]), Wire(a, key, r.ctr + 2, chunks[1..]);
    PrefixSplit(r.input, head, more);
    if |r.input| < |head| {
      CutChunk(a, key, r.ctr, chunks[0], |r.input|);
    } else {
      ChunkLockStep(a, key, r.ctr, chunks[0], r.input[|head|..]);
      assert (head + more)[|head|..] == more;
    }
  }

  /** The next chunk: read whole, or not at all and the input is used up. */
  lemma NextChunk(a: Aead, key: Bytes, r: Reader, chunks: seq<Bytes>)
    requires a.Lawful() && InStep(a, key, r, chunks) && Small(chunks)
    ensures var c := ReadChunk(a, key, r.ctr, r.input);
            if c.res.Plain? then
              |chunks| > 0 && c.res.p == chunks[0] && c.ctr == r.ctr + 2
              && InStep(a, key, Reader(c.ctr, [], c.input), chunks[1..])
              && (Whole(a, key, r, chunks) ==> Whole(a, key, Reader(c.ctr, [], c.input), chunks[1..]))
            else c.input == [] && (Whole(a, key, r, chunks) ==> chunks == [] && c.res == Eof)
  {
    if |chunks| > 0 {
      assert chunks[0] in chunks;
      HeadOfWire(a, key, r, chunks);
    }
  }

  lemma TakeDrop(buf: Bytes, m: nat, more: Bytes)
    requires m <= |buf|
    ensures buf[..m] + (buf[m..] + more) == buf + more
  {
  }

  lemma Nothing(none: Bytes, b: Bytes)
    requires none == []
    ensures none + b == b
  {
  }

  /** Reading chunk by chunk gives these chunks in turn, the counter moving by two each time, and then nothing more.
      Only if the wire is `whole` is it sure that all of them come. */
  ghost predicate Feeds(read: Source, ctr: nat, input: Bytes, chunks: seq<Bytes>, whole: bool)
    decreases |chunks|
  {
    var c := read(ctr, input);
    if c.res.Plain? then
      && |c.input| < |input| && |chunks| > 0 && c.res.p == chunks[0] && c.ctr == ctr + 2
      && Feeds(read, c.ctr, c.input, chunks[1..], whole)
    else
      && c.input == [] && read(c.ctr, []) == ChunkRead(Eof, c.ctr, [])
      && (whole ==> chunks == [] && c.res == Eof && input == [])
  }

  /** What a writer has put on the wire, or any truncation of it, feeds the reader. */
  lemma {:induction false} WireFeeds(a: Aead, key: Bytes, r: Reader, chunks: seq<Bytes>, whole: bool)
    requires a.Lawful() && InStep(a, key, r, chunks) && Small(chunks) && (whole ==> Whole(a, key, r, chunks))
    ensures Feeds(Chunked(a, key), r.ctr, r.input, chunks, whole)
    decreases |chunks|
  {
    NextChunk(a, key, r, chunks);
    var c := ReadChunk(a, key, r.ctr, r.input);
    if c.res.Plain? {
      assert forall x :: x in chunks[1..] ==> x in chunks;
      WireFeeds(a, key, Reader(c.ctr, [], c.input), chunks[1..], whole);
    }
  }

  /** A source that has run dry stays dry. */
  lemma DryFeeds(read: Source, ctr: nat, chunks: seq<Bytes>, whole: bool)
    requires (whole ==> chunks == []) && read(ctr, []) == ChunkRead(Eof, ctr, [])
    ensures Feeds(read, ctr, [], chunks, whole)
  {
  }

  // ---- One call ----

  /** What is still to be delivered: the buffer and the data chunks to come. */
  function Ahead(r: Reader, chunks: seq<Bytes>): Bytes {
    r.buf + Concat(chunks)
  }

  /** The reader has data chunks in front of it, and then the chunks of later writes. */
  ghost predicate AtData(read: Source, r: Reader, chunks: seq<Bytes>, tail: seq<Bytes>, whole: bool) {
    Feeds(read, r.ctr, r.input, chunks + tail, whole) && DataChunks(chunks)
  }

  /** A successful call took what it returned off the front of the data and left the later writes alone. */
  ghost predicate Took(read: Source, r: Reader, chunks: seq<Bytes>, tail: seq<Bytes>, whole: bool, p: PlainRead,
                       left: seq<Bytes>)
    requires p.got.Some?
  {
    AtData(read, p.r, left, tail, whole) && p.got.value + Ahead(p.r, left) == Ahead(r, chunks)
  }

  lemma NextData(read: Source, r: Reader, chunks: seq<Bytes>, tail: seq<Bytes>, whole: bool)
    requires AtData(read, r, chunks, tail, whole) && (chunks != [] || tail == [])
    ensures var c := read(r.ctr, r.input);
            if c.res.Plain? then
              && |chunks| > 0 && c.res.p == chunks[0]
              && AtData(read, Reader(c.ctr, chunks[0], c.input), chunks[1..], tail, whole)
            else
              && c.input == [] && (whole ==> chunks == [] && c.res == Eof)
              && AtData(read, Reader(c.ctr, r.buf, c.input), chunks, tail, whole)
  {
    var c := read(r.ctr, r.input);
    if c.res.Plain? {
      assert (chunks + tail)[1..] == chunks[1..] + tail;
      assert forall x :: x in chunks[1..] ==> x in chunks;
    } else {
      DryFeeds(read, c.ctr, chunks + tail, whole);
    }
  }

  lemma PlainTakes(read: Source, r: Reader, chunks: seq<Bytes>, tail: seq<Bytes>, whole: bool, n: nat)
    returns (left: seq<Bytes>)
    requires AtData(read, r, chunks, tail, whole) && (Ahead(r, chunks) != [] || tail == [])
    ensures var p := PlainOf(read, r, n);
            && (p.got.Some? ==> Took(read, r, chunks, tail, whole, p, left) && |p.got.value| <= n)
            && (whole ==> p.got.Some? && (n > 0 && Ahead(r, chunks) != [] ==> p.got.value != []))
  {
    left := chunks;
    if |r.buf| > 0 {
      BufferTakes(read, r, chunks, tail, whole, n);
    } else {
      NextData(read, r, chunks, tail, whole);
      Nothing(r.buf, Concat(chunks));
      var c := read(r.ctr, r.input);
      if c.res.Plain? {
        left := chunks[1..];
        Nothing(r.buf, chunks[0]);
        assert chunks[0] in chunks;
        BufferTakes(read, Filled(r, c), left, tail, whole, n);
      } else {
        Nothing([], Concat(chunks));
      }
    }
  }

  lemma BufferTakes(read: Source, r: Reader, chunks: seq<Bytes>, tail: seq<Bytes>, whole: bool, n: nat)
    requires AtData(read, r, chunks, tail, whole)
    ensures var p := TakeBuf(r, n);
            Took(read, r, chunks, tail, whole, p, chunks) && |p.got.value| == Min(|r.buf|, n)
  {
    TakeDrop(r.buf, Min(|r.buf|, n), Concat(chunks));
  }

  /** An exact call either took exactly what it asked for, or failed because there was less. */
  ghost predicate ExactGood(read: Source, r: Reader, chunks: seq<Bytes>, tail: seq<Bytes>, whole: bool, n: nat,
                            p: PlainRead, left: seq<Bytes>)
  {
    && (p.got.Some? ==> Took(read, r, chunks, tail, whole, p, left) && |p.got.value| == n)
    && (whole && n <= |Ahead(r, chunks)| ==> p.got.Some?)
  }

  lemma {:induction false} ExactTakes(read: Source, r: Reader, chunks: seq<Bytes>, tail: seq<Bytes>, whole: bool,
                                      n: nat)
    returns (left: seq<Bytes>)
    requires AtData(read, r, chunks, tail, whole) && (n <= |Ahead(r, chunks)| || tail == [])
    ensures ExactGood(read, r, chunks, tail, whole, n, ExactOf(read, r, n), left)
    decreases |r.input|
  {
    if n <= |r.buf| {
      left := chunks;
      ExactBuffered(read, r, chunks, tail, whole, n);
    } else {
      var more, next := AfterChunk(read, r, chunks, tail, whole, n);
      left := chunks;
      if more {
        left := ExactTakes(read, next, chunks[1..], tail, whole, n - |r.buf|);
        ExactMoreGood(read, r, chunks, tail, whole, n, next, left);
      }
    }
  }

  lemma ExactBuffered(read: Source, r: Reader, chunks: seq<Bytes>, tail: seq<Bytes>, whole: bool, n: nat)
    requires AtData(read, r, chunks, tail, whole) && n <= |r.buf|
    ensures ExactGood(read, r, chunks, tail, whole, n, ExactOf(read, r, n), chunks)
  {
    BufferTakes(read, r, chunks, tail, whole, n);
    ExactInside(read, r, n);
  }

  lemma ExactInside(read: Source, r: Reader, n: nat)
    requires n <= |r.buf|
    ensures ExactOf(read, r, n) == TakeBuf(r, n)
  {
    if n == 0 {
      assert r.buf[0..] == r.buf;
    } else {
      assert r.buf[..n] + [] == r.buf[..n];
    }
  }

  lemma ExactBeyond(read: Source, r: Reader, n: nat)
    requires n > |r.buf|
    ensures var c := read(r.ctr, r.input);
            if c.res.Plain? && |c.input| < |r.input|
            then ExactOf(read, r, n) == Prepend(r.buf, ExactOf(read, Reader(c.ctr, c.res.p, c.input), n - |r.buf|))
            else ExactOf(read, r, n).got == None
  {
    var c, dry := read(r.ctr, r.input), r.(buf := []);
    ExactOfChunk(read, dry, n - |r.buf|);
    if c.res.Plain? {
      assert [] + c.res.p == c.res.p;
    }
    if |r.buf| > 0 {
      ExactOfBuffer(read, r, n, |r.buf|);
      assert r.buf[..|r.buf|] == r.buf && r.buf[|r.buf|..] == [];
    } else {
      PrependTwice([], [], ExactOf(read, r, n));
      if c.res.Plain? && |c.input| < |r.input| {
        PrependTwice([], [], ExactOf(read, Reader(c.ctr, c.res.p, c.input), n));
      }
    }
  }

  /** A chunk read because the buffer does not hold `n` bytes: the reader goes on behind it, or there were too few. */
  lemma AfterChunk(read: Source, r: Reader, chunks: seq<Bytes>, tail: seq<Bytes>, whole: bool, n: nat)
    returns (more: bool, next: Reader)
    requires AtData(read, r, chunks, tail, whole) && n > |r.buf| && (n <= |Ahead(r, chunks)| || tail == [])
    ensures more ==>
              && |chunks| > 0 && next.buf == chunks[0] && |next.input| < |r.input|
              && AtData(read, next, chunks[1..], tail, whole)
              && (n - |r.buf| <= |Ahead(next, chunks[1..])| || tail == [])
              && ExactOf(read, r, n) == Prepend(r.buf, ExactOf(read, next, n - |r.buf|))
    ensures !more ==> ExactGood(read, r, chunks, tail, whole, n, ExactOf(read, r, n), chunks)
  {
    NextData(read, r, chunks, tail, whole);
    ExactBeyond(read, r, n);
    var c := read(r.ctr, r.input);
    more := c.res.Plain?;
    next := if more then Reader(c.ctr, c.res.p, c.input) else r;
  }

  /** The first chunk has moved into the buffer of `next`, what was in the buffer of `r` has been handed out. */
  lemma ExactMoreGood(read: Source, r: Reader, chunks: seq<Bytes>, tail: seq<Bytes>, whole: bool, n: nat,
                      next: Reader, left: seq<Bytes>)
    requires n > |r.buf| && |chunks| > 0 && next.buf == chunks[0]
    requires ExactOf(read, r, n) == Prepend(r.buf, ExactOf(read, next, n - |r.buf|))
    requires ExactGood(read, next, chunks[1..], tail, whole, n - |r.buf|, ExactOf(read, next, n - |r.buf|), left)
    ensures ExactGood(read, r, chunks, tail, whole, n, ExactOf(read, r, n), left)
  {
    var p := ExactOf(read, next, n - |r.buf|);
    if p.got.Some? {
      Assoc(r.buf, p.got.value, Ahead(p.r, left));
    }
  }

  // ---- Any calls on the data ----

  /** A call of `read_plain` or of `read_exact_plain`. */
  datatype Call = Read(n: nat) | Exact(n: nat)

  function CallOf(read: Source, r: Reader, c: Call): PlainRead {
    match c case Read(n) => PlainOf(read, r, n) case Exact(n) => ExactOf(read, r, n)
  }

  datatype Many = Many(r: Reader, out: Bytes, ok: bool)

  /** What a call asks for; a reader that knows how many bytes it still needs asks for no more than these. */
  function Asked(need: Option<nat>, c: Call): Call {
    if need.None? || c.n <= need.value then c else c.(n := need.value)
  }

  function Needed(need: Option<nat>, got: Bytes): Option<nat> {
    if need.None? then None else Some(if |got| <= need.value then need.value - |got| else 0)
  }

  /** Calls one after the other, up to the first that fails or until nothing is needed any more. */
  function Calls(read: Source, r: Reader, need: Option<nat>, calls: seq<Call>): Many
    decreases |calls|
  {
    if |calls| == 0 || need == Some(0) then Many(r, [], true)
    else
      var p := CallOf(read, r, Asked(need, calls[0]));
      if p.got.None? then Many(p.r, [], false)
      else
        var more := Calls(read, p.r, Needed(need, p.got.value), calls[1..]);
        Many(more.r, p.got.value + more.out, more.ok)
  }

  /** Calls that get on: each asks for at least one byte, and an exact one cannot ask for more than there is. */
  ghost predicate Roomy(need: Option<nat>, calls: seq<Call>) {
    forall c :: c in calls ==> c.n > 0 && (need.None? ==> c.Read?)
  }

  /** Either the reader reads on to the end, or it knows how many data bytes are in front of it. */
  ghost predicate Knows(r: Reader, chunks: seq<Bytes>, tail: seq<Bytes>, need: Option<nat>) {
    if need.None? then tail == [] else need.value == |Ahead(r, chunks)|
  }

  lemma CallTakes(read: Source, r: Reader, chunks: seq<Bytes>, tail: seq<Bytes>, whole: bool,
                  need: Option<nat>, call: Call)
    returns (left: seq<Bytes>)
    requires AtData(read, r, chunks, tail, whole) && Knows(r, chunks, tail, need) && need != Some(0)
    ensures var p := CallOf(read, r, Asked(need, call));
            && (p.got.Some? ==>
                  Took(read, r, chunks, tail, whole, p, left) && Knows(p.r, left, tail, Needed(need, p.got.value)))
            && (whole && Roomy(need, [call]) ==>
                  p.got.Some? && (Ahead(r, chunks) != [] ==> p.got.value != []))
  {
    var c := Asked(need, call);
    assert call in [call];
    if c.Read? {
      left := PlainTakes(read, r, chunks, tail, whole, c.n);
    } else {
      left := ExactTakes(read, r, chunks, tail, whole, c.n);
    }
  }

  /** On the wire, or any truncation of it, calls of both kinds and any sizes return a prefix of the data;
      on the whole wire enough of them return all of it. */
  lemma CallsTake(a: Aead, key: Bytes, r: Reader, chunks: seq<Bytes>, tail: seq<Bytes>, need: Option<nat>,
                  calls: seq<Call>)
    returns (left: seq<Bytes>)
    requires a.Lawful() && InStep(a, key, r, chunks + tail) && DataChunks(chunks) && Small(tail)
    requires Knows(r, chunks, tail, need)
    ensures var m, whole := Calls(Chunked(a, key), r, need, calls), Whole(a, key, r, chunks + tail);
            CallsGood(Chunked(a, key), r, chunks, tail, whole, m, left, Roomy(need, calls), |calls|)
  {
    var whole := Whole(a, key, r, chunks + tail);
    WireFeeds(a, key, r, chunks + tail, whole);
    left := CallsAreGood(Chunked(a, key), r, chunks, tail, whole, need, calls);
  }

  /** What the calls from `r` on give: a prefix of the data, the rest of it and the later writes being what a reader
      still gets; and on the whole wire no failure and all of the data, or at least a byte a call. */
  ghost predicate CallsGood(read: Source, r: Reader, chunks: seq<Bytes>, tail: seq<Bytes>, whole: bool, m: Many,
                            left: seq<Bytes>, roomy: bool, count: nat)
  {
    && m.out <= Ahead(r, chunks)
    && (m.ok ==> Took(read, r, chunks, tail, whole, PlainRead(m.r, Some(m.out)), left))
    && (whole && roomy ==> m.ok && (Ahead(m.r, left) == [] || |m.out| >= count))
  }

  lemma {:induction false} CallsAreGood(read: Source, r: Reader, chunks: seq<Bytes>, tail: seq<Bytes>,
                                        whole: bool, need: Option<nat>, calls: seq<Call>)
    returns (left: seq<Bytes>)
    requires AtData(read, r, chunks, tail, whole) && Knows(r, chunks, tail, need)
    ensures CallsGood(read, r, chunks, tail, whole, Calls(read, r, need, calls), left, Roomy(need, calls), |calls|)
    decreases |calls|
  {
    left := chunks;
    if |calls| == 0 || need == Some(0) {
      Nothing([], Ahead(r, chunks));
    } else {
      var p := CallOf(read, r, Asked(need, calls[0]));
      RoomyParts(need, calls);
      var mid := CallTakes(read, r, chunks, tail, whole, need, calls[0]);
      if p.got.Some? {
        var rest := Needed(need, p.got.value);
        left := CallsAreGood(read, p.r, mid, tail, whole, rest, calls[1..]);
        var more := Calls(read, p.r, rest, calls[1..]);
        CallAndMore(read, r, chunks, tail, whole, p, mid, more, left, Roomy(need, calls), |calls|);
      }
    }
  }

  lemma RoomyParts(need: Option<nat>, calls: seq<Call>)
    requires |calls| > 0
    ensures Roomy(need, calls) ==> Roomy(need, [calls[0]])
    ensures forall got :: Roomy(need, calls) ==> Roomy(Needed(need, got), calls[1..])
  {
    assert calls[0] in calls && forall c :: c in calls[1..] ==> c in calls;
  }

  /** A call and then the rest of the calls. */
  lemma CallAndMore(read: Source, r: Reader, chunks: seq<Bytes>, tail: seq<Bytes>, whole: bool, p: PlainRead,
                    mid: seq<Bytes>, more: Many, left: seq<Bytes>, roomy: bool, count: nat)
    requires p.got.Some? && Took(read, r, chunks, tail, whole, p, mid) && count > 0
    requires CallsGood(read, p.r, mid, tail, whole, more, left, roomy, count - 1)
    requires whole && roomy && Ahead(r, chunks) != [] ==> p.got.value != []
    ensures var all := Many(more.r, p.got.value + more.out, more.ok);
            CallsGood(read, r, chunks, tail, whole, all, left, roomy, count)
  {
    CallsJoin(p.got.value, more.out, Ahead(p.r, mid), Ahead(more.r, left));
  }

  lemma CallsJoin(got: Bytes, more: Bytes, ahead: Bytes, left: Bytes)
    requires more <= ahead
    ensures got + more <= got + ahead
    ensures more + left == ahead ==> got + more + left == got + ahead
  {
    assert ahead == more + ahead[|more|..];
    Assoc(got, more, ahead[|more|..]);
    Assoc(got, more, left);
  }

  lemma NoEmptyTail(chunks: seq<Bytes>)
    requires DataChunks(chunks)
    ensures chunks != [] ==> Concat(chunks) != []
  {
    if |chunks| > 0 {
      assert chunks[0] in chunks;
    }
  }

  /** Enough reads with room on the whole wire of data return everything and use the wire up. */
  lemma ReadsAreComplete(a: Aead, key: Bytes, r: Reader, chunks: seq<Bytes>, calls: seq<Call>)
    requires a.Lawful() && Whole(a, key, r, chunks) && DataChunks(chunks)
    requires Roomy(None, calls) && |calls| >= |Ahead(r, chunks)|
    ensures var m := Calls(Chunked(a, key), r, None, calls);
            m.ok && m.out == Ahead(r, chunks) && m.r.buf == [] && m.r.input == []
  {
    assert chunks + [] == chunks;
    var left := CallsTake(a, key, r, chunks, [], None, calls);
    var m := Calls(Chunked(a, key), r, None, calls);
    AllTaken(m.out, Ahead(m.r, left), Ahead(r, chunks));
    NoEmptyTail(left);
    assert left + [] == [];
  }

  // ---- Scripts of writes ----

  /** A header write, or any number of data writes in a row. */
  datatype Write = Header(h: Bytes) | Data(ds: seq<Bytes>)

  function DataOf(ds: seq<Bytes>): seq<Bytes> {
    if |ds| == 0 then [] else Chunks(ds[0], MAX_CHUNK) + DataOf(ds[1..])
  }

  /** The chunks a write puts on the wire. */
  function ChunksOf(w: Write): seq<Bytes> {
    match w case Header(h) => [h] case Data(ds) => DataOf(ds)
  }

  function Script(ws: seq<Write>): seq<Bytes> {
    if |ws| == 0 then [] else ChunksOf(ws[0]) + Script(ws[1..])
  }

  function Contents(w: Write): Bytes {
    match w case Header(h) => h case Data(ds) => Concat(ds)
  }

  ghost predicate Headers16(ws: seq<Write>) {
    forall w :: w in ws && w.Header? ==> |w.h| < 0x10000
  }

  lemma {:induction false} WireJoin(a: Aead, key: Bytes, ctr: nat, x: seq<Bytes>, y: seq<Bytes>)
    ensures Wire(a, key, ctr, x + y) == Wire(a, key, ctr, x) + Wire(a, key, ctr + 2 * |x|, y)
    decreases |x|
  {
    if |x| == 0 {
      assert x + y == y;
    } else {
      WireJoin(a, key, ctr + 2, x[1..], y);
      assert (x + y)[1..] == x[1..] + y;
      Assoc(ChunkWire(a, key, ctr, x[0]), Wire(a, key, ctr + 2, x[1..]), Wire(a, key, ctr + 2 * |x|, y));
    }
  }

  lemma {:induction false} ScriptSnoc(ws: seq<Write>, w: Write)
    ensures Script(ws + [w]) == Script(ws) + ChunksOf(w)
  {
    if |ws| == 0 {
      assert ws + [w] == [w] && [w][1..] == [];
      assert Script([w]) == ChunksOf(w) + Script([]);
    } else {
      assert (ws + [w])[1..] == ws[1..] + [w];
      ScriptSnoc(ws[1..], w);
      Assoc(ChunksOf(ws[0]), Script(ws[1..]), ChunksOf(w));
    }
  }

  /** The next write goes behind the wire of the ones before it, with the nonce where they left it. */
  lemma WriteAppends(a: Aead, key: Bytes, ctr: nat, ws: seq<Write>, w: Write)
    ensures Wire(a, key, ctr, Script(ws + [w]))
         == Wire(a, key, ctr, Script(ws)) + Wire(a, key, ctr + 2 * |Script(ws)|, ChunksOf(w))
  {
    ScriptSnoc(ws, w);
    WireJoin(a, key, ctr, Script(ws), ChunksOf(w));
  }

  lemma {:induction false} ChunksSmall(d: Bytes)
    ensures DataChunks(Chunks(d, MAX_CHUNK))
    decreases |d|
  {
    if |d| <= MAX_CHUNK {
    } else {
      ChunksSmall(d[MAX_CHUNK..]);
    }
  }

  lemma {:induction false} DataJoins(ds: seq<Bytes>)
    ensures DataChunks(DataOf(ds)) && Concat(DataOf(ds)) == Concat(ds)
  {
    if |ds| == 0 {
    } else {
      DataJoins(ds[1..]);
      ChunksSmall(ds[0]);
      ChunksJoin(ds[0], MAX_CHUNK);
      ConcatAppend(Chunks(ds[0], MAX_CHUNK), DataOf(ds[1..]));
    }
  }

  lemma {:induction false} ScriptSmall(ws: seq<Write>)
    requires Headers16(ws)
    ensures Small(Script(ws))
  {
    if |ws| == 0 {
    } else {
      assert ws[0] in ws && forall w :: w in ws[1..] ==> w in ws;
      ScriptSmall(ws[1..]);
      if ws[0].Data? {
        DataJoins(ws[0].ds);
      }
    }
  }

  /** Reading a script: a header call for each header, and for data writes the calls planned for them. A reader that has
      a later header to read stops at the last byte before it; behind the last header it reads on freely. The first
      failure, and data that the planned calls do not finish, end it. */
  function ReadScript(read: Source, r: Reader, ws: seq<Write>, plan: seq<seq<Call>>): seq<Bytes>
    requires |plan| == |ws|
    decreases |ws|
  {
    if |ws| == 0 then []
    else
      match ws[0]
      case Header(h) =>
        var p := HeaderOf(read, r);
        if p.got.None? then [] else [p.got.value] + ReadScript(read, p.r, ws[1..], plan[1..])
      case Data(ds) =>
        var m := Calls(read, r, Need(ws), plan[0]);
        [m.out] + if m.ok && m.out == Concat(ds) && |ws| > 1 then ReadScript(read, m.r, ws[1..], plan[1..]) else []
  }

  function Need(ws: seq<Write>): Option<nat>
    requires |ws| > 0
  {
    if |ws| == 1 then None else Some(|Contents(ws[0])|)
  }

  /** What was read is what was written, up to a point at which it breaks off. */
  ghost predicate UpTo(got: seq<Bytes>, ws: seq<Write>) {
    && |got| <= |ws|
    && forall i :: 0 <= i < |got| ==>
         got[i] <= Contents(ws[i]) && (ws[i].Header? || i + 1 < |got| ==> got[i] == Contents(ws[i]))
  }

  ghost predicate AsWritten(got: seq<Bytes>, ws: seq<Write>) {
    |got| == |ws| && forall i :: 0 <= i < |ws| ==> got[i] == Contents(ws[i])
  }

  /** Enough calls for every piece of data. */
  ghost predicate Enough(ws: seq<Write>, plan: seq<seq<Call>>)
    requires |plan| == |ws|
  {
    forall i :: 0 <= i < |ws| && ws[i].Data? ==>
      |plan[i]| >= |Contents(ws[i])| && Roomy(if i + 1 == |ws| then None else Some(0), plan[i])
  }

  /** Reader against writer: for every sequence of header and data writes, every truncation of its wire and all read
      sizes, each header is read as written or the reading fails, and data reads return a prefix of the data written;
      on the whole wire enough reads return everything. */
  lemma ScriptReads(a: Aead, key: Bytes, r: Reader, ws: seq<Write>, plan: seq<seq<Call>>)
    requires a.Lawful() && Headers16(ws) && |plan| == |ws| && r.buf == [] && InStep(a, key, r, Script(ws))
    ensures UpTo(ReadScript(Chunked(a, key), r, ws, plan), ws)
    ensures Whole(a, key, r, Script(ws)) && Enough(ws, plan) ==> AsWritten(ReadScript(Chunked(a, key), r, ws, plan), ws)
  {
    var whole := Whole(a, key, r, Script(ws));
    ScriptSmall(ws);
    WireFeeds(a, key, r, Script(ws), whole);
    ScriptGood(Chunked(a, key), r, ws, plan, whole);
  }

  lemma {:induction false} ScriptGood(read: Source, r: Reader, ws: seq<Write>, plan: seq<seq<Call>>, whole: bool)
    requires |plan| == |ws| && r.buf == [] && Feeds(read, r.ctr, r.input, Script(ws), whole)
    ensures UpTo(ReadScript(read, r, ws, plan), ws)
    ensures whole && Enough(ws, plan) ==> AsWritten(ReadScript(read, r, ws, plan), ws)
    decreases |ws|, 1
  {
    if |ws| == 0 {
    } else if ws[0].Header? {
      HeaderRead(read, r, ws, plan, whole);
    } else {
      DataRead(read, r, ws, plan, whole);
    }
  }

  lemma MoreReads(ws: seq<Write>, plan: seq<seq<Call>>, got: seq<Bytes>, more: seq<Bytes>)
    requires |ws| > 0 && |plan| == |ws| && got == [Contents(ws[0])] + more && UpTo(more, ws[1..])
    ensures UpTo(got, ws)
    ensures AsWritten(more, ws[1..]) ==> AsWritten(got, ws)
    ensures Enough(ws, plan) ==> Enough(ws[1..], plan[1..])
  {
    forall i | 0 <= i < |got|
      ensures got[i] <= Contents(ws[i]) && (ws[i].Header? || i + 1 < |got| ==> got[i] == Contents(ws[i]))
    {
      if i > 0 {
        assert got[i] == more[i - 1] && ws[i] == ws[1..][i - 1];
      }
    }
    if AsWritten(more, ws[1..]) {
      assert forall i :: 1 <= i < |ws| ==> got[i] == more[i - 1] && ws[i] == ws[1..][i - 1];
    }
    EnoughTail(ws, plan);
  }

  lemma EnoughTail(ws: seq<Write>, plan: seq<seq<Call>>)
    requires |ws| > 0 && |plan| == |ws|
    ensures Enough(ws, plan) ==> Enough(ws[1..], plan[1..])
  {
    if Enough(ws, plan) {
      forall i | 0 <= i < |ws[1..]| && ws[1..][i].Data?
        ensures |plan[1..][i]| >= |Contents(ws[1..][i])|
        ensures Roomy(if i + 1 == |ws[1..]| then None else Some(0), plan[1..][i])
      {
        assert ws[1..][i] == ws[i + 1] && plan[1..][i] == plan[i + 1];
      }
    }
  }

  lemma {:induction false} HeaderRead(read: Source, r: Reader, ws: seq<Write>, plan: seq<seq<Call>>, whole: bool)
    requires |plan| == |ws| && r.buf == [] && Feeds(read, r.ctr, r.input, Script(ws), whole)
    requires |ws| > 0 && ws[0].Header?
    ensures UpTo(ReadScript(read, r, ws, plan), ws)
    ensures whole && Enough(ws, plan) ==> AsWritten(ReadScript(read, r, ws, plan), ws)
    decreases |ws|, 0
  {
    var h, more := ws[0].h, ws[1..];
    assert Script(ws)[0] == h && Script(ws)[1..] == Script(more);
    var p := HeaderOf(read, r);
    if p.got.Some? {
      ScriptGood(read, p.r, more, plan[1..], whole);
      MoreReads(ws, plan, ReadScript(read, r, ws, plan), ReadScript(read, p.r, more, plan[1..]));
    }
  }

  lemma {:induction false} DataRead(read: Source, r: Reader, ws: seq<Write>, plan: seq<seq<Call>>, whole: bool)
    requires |plan| == |ws| && r.buf == [] && Feeds(read, r.ctr, r.input, Script(ws), whole)
    requires |ws| > 0 && ws[0].Data?
    ensures UpTo(ReadScript(read, r, ws, plan), ws)
    ensures whole && Enough(ws, plan) ==> AsWritten(ReadScript(read, r, ws, plan), ws)
    decreases |ws|, 0
  {
    var more := ws[1..];
    var m := Calls(read, r, Need(ws), plan[0]);
    var done := DataEnds(read, r, ws, plan, whole);
    if done && |ws| > 1 {
      ScriptGood(read, m.r, more, plan[1..], whole);
      MoreReads(ws, plan, ReadScript(read, r, ws, plan), ReadScript(read, m.r, more, plan[1..]));
    }
  }

  /** The data calls: a prefix in any case, and everything when the wire is whole and there are enough of them. */
  lemma DataEnds(read: Source, r: Reader, ws: seq<Write>, plan: seq<seq<Call>>, whole: bool) returns (done: bool)
    requires |plan| == |ws| && r.buf == [] && Feeds(read, r.ctr, r.input, Script(ws), whole)
    requires |ws| > 0 && ws[0].Data?
    ensures var m := Calls(read, r, Need(ws), plan[0]);
            && m.out <= Contents(ws[0]) && (done <==> m.ok && m.out == Contents(ws[0]))
            && (done ==> m.r.buf == [] && Feeds(read, m.r.ctr, m.r.input, Script(ws[1..]), whole))
            && (whole && Enough(ws, plan) ==> done)
  {
    var chunks, tail := DataOf(ws[0].ds), Script(ws[1..]);
    DataJoins(ws[0].ds);
    Nothing(r.buf, Concat(chunks));
    var left := CallsAreGood(read, r, chunks, tail, whole, Need(ws), plan[0]);
    var m := Calls(read, r, Need(ws), plan[0]);
    done := m.ok && m.out == Contents(ws[0]);
    if m.ok {
      AllTaken(m.out, Ahead(m.r, left), Contents(ws[0]));
      if done {
        NoEmptyTail(left);
        assert left + tail == tail;
      }
    }
  }

  lemma AllTaken(out: Bytes, ahead: Bytes, all: Bytes)
    requires out + ahead == all
    ensures ahead == [] <==> out == all
    ensures |out| >= |all| ==> out == all
  {
    assert ahead == [] ==> out + ahead == out;
    assert |all| == |out| + |ahead|;
  }
}
