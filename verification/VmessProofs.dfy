/** What the two VMess loops promise each other. */
module VmessProofs {
  import opened Bytes
  import opened AeadLaws
  import opened VmessChunks

  // ---- Decoding undoes encoding ----

  predicate Fits(plain: Bytes) { |plain| <= CHUNK_SIZE }

  function OverheadOf(c: Config): nat { if c.sec == SEC_NONE then 0 else TAG_LEN }

  /** The cast of the chunk size to 16 bits never loses anything. */
  lemma SizeNeverTruncates(c: Config, st: Lock, plain: Bytes)
    requires c.Valid() && c.crypto.Lawful() && c.Supported() && Fits(plain)
    ensures |Seal(c, st.count, plain)| == |plain| + OverheadOf(c)
    ensures |Seal(c, st.count, plain)| + PadLen(c, st) < 0x10000
    ensures Open(c, st.count, Seal(c, st.count, plain)) == Some(plain)
  {
  }

  lemma SizeFieldReads(c: Config, st: Lock, total: u16)
    requires c.Valid() && !c.AuthLen()
    ensures |SizeField(c, st, total)| == 2 && ReadSize(c, st, SizeField(c, st, total)) == Some(total)
  {
    Xor16Cancels(total, c.crypto.shake(c.iv, PosAfterPad(c, st)));
  }

  lemma Slices(a: Bytes, b: Bytes, p: Bytes, t: Bytes)
    ensures (a + b + p + t)[..|a|] == a && (a + b + p + t)[|a|..] == b + p + t
    ensures (b + p + t)[..|b|] == b && (b + p + t)[|b| + |p|..] == t
  {
  }

  lemma HeaderLockStep(c: Config, st: Lock, total: u16, ct: Bytes, pad: Bytes, tail: Bytes)
    requires c.Valid() && !c.AuthLen()
    ensures DecodeChunk(c, st, SizeField(c, st, total) + ct + pad + tail)
         == DecodeBody(c, AfterSize(c, st), PadLen(c, st), total, ct + pad + tail, [])
  {
    SizeFieldReads(c, st, total);
    Slices(SizeField(c, st, total), ct, pad, tail);
  }

  /** What reading back a chunk must give: the plaintext, and the lock and AEAD calls of the writer. */
  function ReadBack(c: Config, st: Lock, plain: Bytes, pad: Bytes, tail: Bytes): Step
    requires c.Valid() && c.Supported()
  {
    var e := EncodeChunk(c, st, plain, pad);
    if plain != [] then Got(plain, tail, e.next, e.uses)
    else End(true, if c.sec == SEC_NONE then pad + tail else tail, e.uses)
  }

  /** At every chunk boundary the reader leaves exactly the counter and the Shake128 position the writer left. */
  lemma ChunkLockStep(c: Config, st: Lock, plain: Bytes, pad: Bytes, tail: Bytes)
    requires c.Valid() && c.crypto.Lawful() && c.Supported() && !c.AuthLen()
    requires Fits(plain) && |pad| == PadLen(c, st)
    ensures DecodeChunk(c, st, EncodeChunk(c, st, plain, pad).wire + tail) == ReadBack(c, st, plain, pad, tail)
  {
    BodyLockStep(c, st, plain, pad, tail);
    HeaderOfChunk(c, st, plain, pad, tail);
  }

  lemma HeaderOfChunk(c: Config, st: Lock, plain: Bytes, pad: Bytes, tail: Bytes)
    requires c.Valid() && c.Supported() && !c.AuthLen() && |Seal(c, st.count, plain)| + |pad| < 0x10000
    ensures var ct := Seal(c, st.count, plain);
            DecodeChunk(c, st, EncodeChunk(c, st, plain, pad).wire + tail)
            == DecodeBody(c, AfterSize(c, st), PadLen(c, st), |ct| + |pad|, ct + pad + tail, [])
  {
    var ct := Seal(c, st.count, plain);
    WireOfChunk(c, st, plain, pad);
    HeaderLockStep(c, st, |ct| + |pad|, ct, pad, tail);
  }

  lemma WireOfChunk(c: Config, st: Lock, plain: Bytes, pad: Bytes)
    requires c.Valid() && c.Supported() && |Seal(c, st.count, plain)| + |pad| < 0x10000
    ensures var ct := Seal(c, st.count, plain);
            EncodeChunk(c, st, plain, pad).wire == SizeField(c, st, |ct| + |pad|) + ct + pad
  {
  }

  lemma BodyLockStep(c: Config, st: Lock, plain: Bytes, pad: Bytes, tail: Bytes)
    requires c.Valid() && c.crypto.Lawful() && c.Supported() && !c.AuthLen()
    requires Fits(plain) && |pad| == PadLen(c, st)
    ensures var ct := Seal(c, st.count, plain);
            && |ct| + |pad| < 0x10000
            && DecodeBody(c, AfterSize(c, st), PadLen(c, st), |ct| + |pad|, ct + pad + tail, [])
               == ReadBack(c, st, plain, pad, tail)
  {
    var ct := Seal(c, st.count, plain);
    SizeNeverTruncates(c, st, plain);
    Slices([], ct, pad, tail);
    assert c.sec == SEC_NONE && plain == [] ==> ct + pad + tail == pad + tail;
    assert [] + DataUses(c, st.count) == DataUses(c, st.count) + [];
  }

  /** What `relay_up` leaves unread after the EOF chunk: the padding of that chunk when there is no cipher. */
  function AfterEof(c: Config, st: Lock, parts: seq<Bytes>, rng: (nat, nat) -> Bytes, i: nat, tail: Bytes): Bytes
    requires c.Supported() && c.Valid()
    decreases |parts|
  {
    if |parts| == 0 then if c.sec == SEC_NONE then rng(i, PadLen(c, st)) + tail else tail
    else AfterEof(c, EncodeChunk(c, st, parts[0], rng(i, PadLen(c, st))).next, parts[1..], rng, i + 1, tail)
  }

  lemma {:induction false} StreamRoundTrip(c: Config, st: Lock, parts: seq<Bytes>, rng: (nat, nat) -> Bytes, i: nat,
                                           tail: Bytes)
    requires c.Valid() && c.crypto.Lawful() && c.Supported() && !c.AuthLen() && Fills(rng) && ValidReads(parts)
    ensures Decode(c, st, Encode(c, st, parts, rng, i).wire + tail)
         == Decoded(Concat(parts), true, AfterEof(c, st, parts, rng, i, tail), Encode(c, st, parts, rng, i).uses)
    decreases |parts|
  {
    var pad := rng(i, PadLen(c, st));
    if |parts| == 0 {
      ChunkLockStep(c, st, [], pad, tail);
    } else {
      assert parts[0] in parts && ValidReads(parts[1..]);
      var e := EncodeChunk(c, st, parts[0], pad);
      var more := Encode(c, e.next, parts[1..], rng, i + 1);
      Assoc(e.wire, more.wire, tail);
      ChunkLockStep(c, st, parts[0], pad, more.wire + tail);
      StreamRoundTrip(c, e.next, parts[1..], rng, i + 1, tail);
    }
  }

  /** Without `OPT_AUTH_LEN`, `relay_up` recovers exactly what `relay_down` was given and stops at its EOF chunk. */
  lemma RelayRoundTrip(c: Config, parts: seq<Bytes>, rng: (nat, nat) -> Bytes, tail: Bytes)
    requires c.Valid() && c.crypto.Lawful() && c.Supported() && Fills(rng) && ValidReads(parts)
    requires !c.AuthLen() && !c.Copying()
    ensures var up := Up(c, Down(c, parts, rng) + tail);
            up.out == Concat(parts) && up.ok && up.rest == AfterEof(c, START, parts, rng, 0, tail)
  {
    StreamRoundTrip(c, START, parts, rng, 0, tail);
  }

  // ---- A wire that is cut short ----

  /** Of a chunk that is cut short nothing is delivered, and only the EOF chunk can still end the loop without
      an error. */
  lemma CutChunk(c: Config, st: Lock, plain: Bytes, pad: Bytes, k: nat)
    requires c.Valid() && c.crypto.Lawful() && c.Supported() && !c.AuthLen()
    requires Fits(plain) && |pad| == PadLen(c, st) && k < |EncodeChunk(c, st, plain, pad).wire|
    ensures var d := DecodeChunk(c, st, EncodeChunk(c, st, plain, pad).wire[..k]); d.End? && (d.ok ==> plain == [])
  {
    var ct := Seal(c, st.count, plain);
    SizeNeverTruncates(c, st, plain);
    WireOfChunk(c, st, plain, pad);
    var field, w := SizeField(c, st, |ct| + |pad|), EncodeChunk(c, st, plain, pad).wire[..k];
    SizeFieldReads(c, st, |ct| + |pad|);
    if k >= 2 {
      CutSlices(field, ct, pad, k);
      assert DecodeChunk(c, st, w) == DecodeBody(c, AfterSize(c, st), PadLen(c, st), |ct| + |pad|, w[2..], []);
      CutBody(c, st, plain, pad, w[2..]);
    }
  }

  lemma CutSlices(field: Bytes, ct: Bytes, pad: Bytes, k: nat)
    requires |field| == 2 <= k < |field + ct + pad|
    ensures var w := (field + ct + pad)[..k];
            w[..2] == field && |w[2..]| < |ct| + |pad| && (|w[2..]| >= |ct| ==> w[2..][..|ct|] == ct)
  {
  }

  lemma CutBody(c: Config, st: Lock, plain: Bytes, pad: Bytes, body: Bytes)
    requires c.Valid() && c.crypto.Lawful() && c.Supported() && !c.AuthLen() && Fits(plain) && |pad| == PadLen(c, st)
    requires var ct := Seal(c, st.count, plain);
             |ct| + |pad| < 0x10000 && |body| < |ct| + |pad| && (|body| >= |ct| ==> body[..|ct|] == ct)
    ensures var size := |Seal(c, st.count, plain)| + |pad|;
            var d := DecodeBody(c, AfterSize(c, st), PadLen(c, st), size, body, []);
            d.End? && (d.ok ==> plain == [])
  {
    SizeNeverTruncates(c, st, plain);
  }

  lemma PrefixSplit(w: Bytes, head: Bytes, more: Bytes)
    requires w <= head + more
    ensures |w| < |head| ==> w == head[..|w|]
    ensures |w| >= |head| ==> w[|head|..] <= more && w == head + w[|head|..]
  {
  }

  /** What has come out so far: a prefix of the data, and all of them if the loop ended without an error. */
  ghost predicate Partly(d: Decoded, data: Bytes) {
    d.out <= data && (d.ok ==> d.out == data)
  }

  lemma {:induction false} CutStream(c: Config, st: Lock, parts: seq<Bytes>, rng: (nat, nat) -> Bytes, i: nat, w: Bytes)
    requires c.Valid() && c.crypto.Lawful() && c.Supported() && !c.AuthLen() && Fills(rng) && ValidReads(parts)
    requires w <= Encode(c, st, parts, rng, i).wire
    ensures Partly(Decode(c, st, w), Concat(parts))
    decreases |parts|
  {
    var pad := rng(i, PadLen(c, st));
    if |parts| == 0 {
      CutEof(c, st, pad, w);
    } else {
      var e := EncodeChunk(c, st, parts[0], pad);
      var more := Encode(c, e.next, parts[1..], rng, i + 1).wire;
      assert parts[0] in parts && ValidReads(parts[1..]);
      EncodeFirst(c, st, parts, rng, i);
      if |w| < |e.wire| {
        CutFirst(c, st, parts[0], pad, w, more, Concat(parts));
      } else {
        var rest := RestOf(w, e.wire, more);
        CutStream(c, e.next, parts[1..], rng, i + 1, rest);
        CutLater(c, st, parts[0], pad, w, rest, Concat(parts[1..]));
      }
    }
  }

  lemma EncodeFirst(c: Config, st: Lock, parts: seq<Bytes>, rng: (nat, nat) -> Bytes, i: nat)
    requires c.Valid() && c.Supported() && |parts| > 0
    ensures var e := EncodeChunk(c, st, parts[0], rng(i, PadLen(c, st)));
            Encode(c, st, parts, rng, i).wire == e.wire + Encode(c, e.next, parts[1..], rng, i + 1).wire
    ensures Concat(parts) == parts[0] + Concat(parts[1..])
  {
  }

  lemma CutEof(c: Config, st: Lock, pad: Bytes, w: Bytes)
    requires c.Valid() && c.crypto.Lawful() && c.Supported() && !c.AuthLen() && |pad| == PadLen(c, st)
    requires w <= EncodeChunk(c, st, [], pad).wire
    ensures Partly(Decode(c, st, w), [])
  {
    var wire := EncodeChunk(c, st, [], pad).wire;
    if |w| < |wire| {
      assert w == wire[..|w|];
      CutChunk(c, st, [], pad, |w|);
    } else {
      assert w + [] == w == wire;
      ChunkLockStep(c, st, [], pad, []);
    }
  }

  lemma RestOf(w: Bytes, head: Bytes, more: Bytes) returns (rest: Bytes)
    requires w <= head + more && |w| >= |head|
    ensures w == head + rest && rest <= more
  {
    rest := w[|head|..];
    PrefixSplit(w, head, more);
  }

  lemma CutFirst(c: Config, st: Lock, plain: Bytes, pad: Bytes, w: Bytes, more: Bytes, data: Bytes)
    requires c.Valid() && c.crypto.Lawful() && c.Supported() && !c.AuthLen()
    requires plain != [] && Fits(plain) && |pad| == PadLen(c, st)
    requires var wire := EncodeChunk(c, st, plain, pad).wire; |w| < |wire| && w <= wire + more
    ensures Partly(Decode(c, st, w), data)
  {
    PrefixSplit(w, EncodeChunk(c, st, plain, pad).wire, more);
    CutChunk(c, st, plain, pad, |w|);
  }

  lemma CutLater(c: Config, st: Lock, plain: Bytes, pad: Bytes, w: Bytes, rest: Bytes, data: Bytes)
    requires c.Valid() && c.crypto.Lawful() && c.Supported() && !c.AuthLen()
    requires plain != [] && Fits(plain) && |pad| == PadLen(c, st)
    requires var e := EncodeChunk(c, st, plain, pad);
             w == e.wire + rest && Partly(Decode(c, e.next, rest), data)
    ensures Partly(Decode(c, st, w), plain + data)
  {
    var e := EncodeChunk(c, st, plain, pad);
    FirstWhole(c, st, plain, pad, w, rest);
    PartlyMore(plain, Decode(c, e.next, rest), data, e.uses);
  }

  /** A wire that starts with a whole chunk. */
  lemma FirstWhole(c: Config, st: Lock, plain: Bytes, pad: Bytes, w: Bytes, rest: Bytes)
    requires c.Valid() && c.crypto.Lawful() && c.Supported() && !c.AuthLen()
    requires plain != [] && Fits(plain) && |pad| == PadLen(c, st)
    requires w == EncodeChunk(c, st, plain, pad).wire + rest
    ensures var e := EncodeChunk(c, st, plain, pad);
            var d := Decode(c, e.next, rest);
            Decode(c, st, w) == Decoded(plain + d.out, d.ok, d.rest, e.uses + d.uses)
  {
    ChunkLockStep(c, st, plain, pad, rest);
  }

  lemma PartlyMore(plain: Bytes, d: Decoded, data: Bytes, uses: seq<Use>)
    requires Partly(d, data)
    ensures Partly(Decoded(plain + d.out, d.ok, d.rest, uses + d.uses), plain + data)
  {
    assert data == d.out + data[|d.out|..];
    Assoc(plain, d.out, data[|d.out|..]);
  }

  /** Without `OPT_AUTH_LEN`, on any truncation of the wire: a prefix of the bytes, and an error unless it is
      all of them; only a copied stream has no end of its own. */
  lemma CutRelay(c: Config, parts: seq<Bytes>, rng: (nat, nat) -> Bytes, w: Bytes)
    requires c.Valid() && c.crypto.Lawful() && c.Supported() && Fills(rng) && ValidReads(parts)
    requires (c.Copying() || !c.AuthLen()) && w <= Down(c, parts, rng)
    ensures Up(c, w).out <= Concat(parts)
    ensures !c.Copying() && Up(c, w).ok ==> Up(c, w).out == Concat(parts)
  {
    if !c.Copying() {
      CutStream(c, START, parts, rng, 0, w);
    }
  }

  // ---- OPT_AUTH_LEN ----

  /** With `OPT_AUTH_LEN` the writer seals the size after the data and the reader opens it before: never the
      same nonce. */
  lemma AuthLenNeverDecodes(c: Config, st: Lock, plain: Bytes, pad: Bytes, tail: Bytes)
    requires c.Valid() && c.crypto.Lawful() && c.crypto.aes.NonceBound() && c.Supported() && c.AuthLen()
    ensures var d := DecodeChunk(c, st, EncodeChunk(c, st, plain, pad).wire + tail); d.End? && !d.ok
  {
    var ct := Seal(c, st.count, plain);
    var total := (|ct| + |pad|) % 0x10000;
    var field := SizeField(c, st, total);
    Slices(field, ct, pad, tail);
    SizeRejected(c, st, total);
  }

  lemma SizeRejected(c: Config, st: Lock, total: u16)
    requires c.Valid() && c.crypto.Lawful() && c.crypto.aes.NonceBound() && c.AuthLen()
    ensures |SizeField(c, st, total)| == SizeWidth(c) && ReadSize(c, st, SizeField(c, st, total)) == None
  {
    NoncesDiffer(c.iv, st.count, Succ16(st.count));
  }

  lemma NoncesDiffer(iv: Bytes, a: u16, b: u16)
    requires |iv| == 16
    ensures ChunkNonce(iv, a) == ChunkNonce(iv, b) <==> a == b
  {
    var x, y := ChunkNonce(iv, a), ChunkNonce(iv, b);
    assert x[0] == a / 256 && x[1] == a % 256 && y[0] == b / 256 && y[1] == b % 256;
  }

  /** When the two loops understand each other, for every stream, every split into reads and every option; exactly then
      if no ciphertext opens under another nonce. */
  lemma RelayRoundTripIff(c: Config, parts: seq<Bytes>, rng: (nat, nat) -> Bytes)
    requires c.Valid() && c.crypto.Lawful() && c.Supported() && Fills(rng) && ValidReads(parts)
    ensures var up := Up(c, Down(c, parts, rng));
            && (c.Copying() || !c.AuthLen() ==> up.ok && up.out == Concat(parts))
            && (c.crypto.aes.NonceBound() && !c.Copying() && c.AuthLen() ==> !up.ok)
  {
    if c.Copying() {
    } else if !c.AuthLen() {
      RelayRoundTrip(c, parts, rng, []);
      assert Down(c, parts, rng) + [] == Down(c, parts, rng);
    } else if c.crypto.aes.NonceBound() {
      FirstChunkFails(c, parts, rng);
    }
  }

  lemma FirstChunkFails(c: Config, parts: seq<Bytes>, rng: (nat, nat) -> Bytes)
    requires c.Valid() && c.crypto.Lawful() && c.crypto.aes.NonceBound() && c.Supported() && c.AuthLen()
    ensures !Decode(c, START, Encode(c, START, parts, rng, 0).wire).ok
  {
    var pad := rng(0, PadLen(c, START));
    var plain := if |parts| == 0 then [] else parts[0];
    var e := EncodeChunk(c, START, plain, pad);
    if |parts| == 0 {
      AuthLenNeverDecodes(c, START, [], pad, []);
      assert e.wire + [] == e.wire;
    } else {
      AuthLenNeverDecodes(c, START, plain, pad, Encode(c, e.next, parts[1..], rng, 1).wire);
    }
  }

  // ---- No nonce is used twice ----

  /** The counter behind the `k`-th AEAD call of a run whose first call has counter `from`. */
  function CountAt(c: Config, from: nat, k: nat): u16 {
    (from + Increments(c, k)) % 0x10000
  }

  /** The counter increments from one AEAD call to the `k`-th after it: with no cipher only the sizes are sealed. */
  function Increments(c: Config, k: nat): nat {
    if c.sec == SEC_NONE then 2 * k else k
  }

  function DataKey(c: Config): Bytes {
    if c.sec == SEC_CHACHA20 then c.crypto.chachaKey(c.key) else c.key
  }

  /** Some calls are made at all. */
  predicate HasCalls(c: Config) {
    c.AuthLen() || c.sec != SEC_NONE
  }

  /** Data and sizes are sealed in turn. */
  predicate TwoKeys(c: Config) {
    c.AuthLen() && c.sec != SEC_NONE
  }

  /** The key of the `k`-th call; the reader opens the size first, the writer seals it last. */
  function KeyAt(c: Config, sizeFirst: bool, k: nat): Bytes {
    if TwoKeys(c) then if (k % 2 == 0) == sizeFirst then c.crypto.authLenKey(c.key) else DataKey(c)
    else if c.AuthLen() then c.crypto.authLenKey(c.key) else DataKey(c)
  }

  function UseAt(c: Config, sizeFirst: bool, from: nat, k: nat): Use
    requires c.Valid()
  {
    Use(KeyAt(c, sizeFirst, k), ChunkNonce(c.iv, CountAt(c, from, k)))
  }

  ghost predicate UsesFrom(c: Config, sizeFirst: bool, from: nat, uses: seq<Use>)
    requires c.Valid()
  {
    forall k :: 0 <= k < |uses| ==> uses[k] == UseAt(c, sizeFirst, from, k)
  }

  /** No AEAD is given a key and a nonce that were used together before. */
  ghost predicate UsesDistinct(uses: seq<Use>) {
    forall i, j :: 0 <= i < j < |uses| ==> uses[i] != uses[j]
  }

  lemma ModShift(x: nat, y: nat)
    ensures (x % 0x10000 + y) % 0x10000 == (x + y) % 0x10000
  {
  }

  lemma ModDistinct(a: nat, b: nat)
    requires a < b < a + 0x10000
    ensures a % 0x10000 != b % 0x10000
  {
  }

  lemma UsesDiffer(c: Config, sizeFirst: bool, from: nat, i: nat, j: nat)
    requires c.Valid() && i < j && Increments(c, j) < Increments(c, i) + 0x10000
    ensures UseAt(c, sizeFirst, from, i) != UseAt(c, sizeFirst, from, j)
  {
    ModDistinct(from + Increments(c, i), from + Increments(c, j));
    NoncesDiffer(c.iv, CountAt(c, from, i), CountAt(c, from, j));
  }

  lemma UseRepeats(c: Config, sizeFirst: bool, from: nat)
    requires c.Valid()
    ensures UseAt(c, sizeFirst, from, 0) == UseAt(c, sizeFirst, from, if c.sec == SEC_NONE then 0x8000 else 0x10000)
  {
    ModShift(0x10000, from);
  }

  /** A key and nonce come back exactly when the counter has been incremented more than 2^16 times. */
  lemma DistinctIff(c: Config, sizeFirst: bool, from: nat, uses: seq<Use>)
    requires c.Valid() && UsesFrom(c, sizeFirst, from, uses)
    ensures UsesDistinct(uses) <==> Increments(c, |uses|) <= 0x10000
  {
    if Increments(c, |uses|) <= 0x10000 {
      forall i, j | 0 <= i < j < |uses|
        ensures uses[i] != uses[j]
      {
        UsesDiffer(c, sizeFirst, from, i, j);
      }
    } else {
      var period := if c.sec == SEC_NONE then 0x8000 else 0x10000;
      UseRepeats(c, sizeFirst, from);
      assert uses[0] == uses[period];
    }
  }

  /** The call that follows `n` others is the first of a run that starts where these end. */
  lemma UseShift(c: Config, sizeFirst: bool, from: nat, n: nat, next: nat, k: nat)
    requires c.Valid() && next % 0x10000 == (from + Increments(c, n)) % 0x10000 && (TwoKeys(c) ==> n % 2 == 0)
    ensures UseAt(c, sizeFirst, from, n + k) == UseAt(c, sizeFirst, next, k)
  {
    SameCount(from + Increments(c, n), next, Increments(c, k));
    assert Increments(c, n + k) == Increments(c, n) + Increments(c, k);
    ShiftedParity(n, k);
  }

  lemma SameCount(x: nat, y: nat, more: nat)
    requires x % 0x10000 == y % 0x10000
    ensures (x + more) % 0x10000 == (y + more) % 0x10000
  {
    ModShift(x, more);
    ModShift(y, more);
  }

  lemma ShiftedParity(n: nat, k: nat)
    ensures n % 2 == 0 ==> (n + k) % 2 == k % 2
  {
  }

  lemma UsesJoin(c: Config, sizeFirst: bool, from: nat, a: seq<Use>, next: nat, b: seq<Use>)
    requires c.Valid() && UsesFrom(c, sizeFirst, from, a) && UsesFrom(c, sizeFirst, next, b)
    requires next % 0x10000 == (from + Increments(c, |a|)) % 0x10000 && (TwoKeys(c) ==> |a| % 2 == 0)
    ensures UsesFrom(c, sizeFirst, from, a + b)
  {
    forall k | 0 <= k < |a + b|
      ensures (a + b)[k] == UseAt(c, sizeFirst, from, k)
    {
      if k >= |a| {
        UseShift(c, sizeFirst, from, |a|, next, k - |a|);
      }
    }
  }

  // ---- Downlink ----

  /** Where the writer's first counter stands: with no cipher, only the sizes are sealed, after the increment. */
  function DownFrom(c: Config, st: Lock): nat {
    if c.sec == SEC_NONE then st.count + 1 else st.count
  }

  function CallsPerChunk(c: Config): nat {
    (if c.sec == SEC_NONE then 0 else 1) + if c.AuthLen() then 1 else 0
  }

  function TurnsPerChunk(c: Config): nat {
    if c.AuthLen() then 2 else 1
  }

  lemma UsesOfChunk(c: Config, st: Lock, plain: Bytes, pad: Bytes)
    requires c.Valid() && c.Supported()
    ensures var uses := EncodeChunk(c, st, plain, pad).uses;
            |uses| == CallsPerChunk(c) && UsesFrom(c, false, DownFrom(c, st), uses)
  {
    if c.sec == SEC_NONE {
      assert CountAt(c, st.count + 1, 0) == Succ16(st.count);
    } else {
      assert CountAt(c, st.count, 0) == st.count && CountAt(c, st.count, 1) == Succ16(st.count);
    }
  }

  lemma NextDownFrom(c: Config, st: Lock, plain: Bytes, pad: Bytes)
    requires c.Valid() && c.Supported() && HasCalls(c)
    ensures DownFrom(c, EncodeChunk(c, st, plain, pad).next) % 0x10000
         == (DownFrom(c, st) + Increments(c, CallsPerChunk(c))) % 0x10000
  {
    ModShift(st.count + 1, 1);
    ModShift(st.count + 2, 1);
  }

  lemma {:induction false} EncodeUses(c: Config, st: Lock, parts: seq<Bytes>, rng: (nat, nat) -> Bytes, i: nat)
    requires c.Valid() && c.Supported() && HasCalls(c)
    ensures UsesFrom(c, false, DownFrom(c, st), Encode(c, st, parts, rng, i).uses)
    decreases |parts|
  {
    var plain, pad := if |parts| == 0 then [] else parts[0], rng(i, PadLen(c, st));
    var head := EncodeChunk(c, st, plain, pad);
    UsesOfChunk(c, st, plain, pad);
    if |parts| == 0 {
    } else {
      EncodeUses(c, head.next, parts[1..], rng, i + 1);
      NextDownFrom(c, st, plain, pad);
      var tail := Encode(c, head.next, parts[1..], rng, i + 1);
      UsesJoin(c, false, DownFrom(c, st), head.uses, DownFrom(c, head.next), tail.uses);
    }
  }

  lemma OneMore(n: nat, k: nat)
    ensures (n + 1) * k == n * k + k
  {
  }

  /** Every chunk, the EOF chunk included, makes the same number of AEAD calls. */
  lemma {:induction false} EncodeCalls(c: Config, st: Lock, parts: seq<Bytes>, rng: (nat, nat) -> Bytes, i: nat)
    requires c.Valid() && c.Supported()
    ensures |Encode(c, st, parts, rng, i).uses| == (|parts| + 1) * CallsPerChunk(c)
    decreases |parts|
  {
    var plain, pad := if |parts| == 0 then [] else parts[0], rng(i, PadLen(c, st));
    UsesOfChunk(c, st, plain, pad);
    if |parts| == 0 {
    } else {
      EncodeCalls(c, EncodeChunk(c, st, plain, pad).next, parts[1..], rng, i + 1);
      OneMore(|parts|, CallsPerChunk(c));
    }
  }

  lemma CallsAndTurns(c: Config, n: nat)
    ensures HasCalls(c) ==> Increments(c, n * CallsPerChunk(c)) == n * TurnsPerChunk(c)
    ensures !HasCalls(c) ==> n * CallsPerChunk(c) == 0
  {
    assert CallsPerChunk(c) == 0 || CallsPerChunk(c) == 1 || CallsPerChunk(c) == 2;
  }

  /** Downlink, under every option: no key and nonce are used twice exactly when no AEAD is used at all or the chunks,
      the EOF chunk included, increment the counter at most 2^16 times. */
  lemma DownNoncesDistinctIff(c: Config, parts: seq<Bytes>, rng: (nat, nat) -> Bytes)
    requires c.Valid() && c.Supported()
    ensures UsesDistinct(Encode(c, START, parts, rng, 0).uses)
       <==> !HasCalls(c) || (|parts| + 1) * TurnsPerChunk(c) <= 0x10000
  {
    EncodeCalls(c, START, parts, rng, 0);
    CallsAndTurns(c, |parts| + 1);
    if HasCalls(c) {
      EncodeUses(c, START, parts, rng, 0);
      DistinctIff(c, false, DownFrom(c, START), Encode(c, START, parts, rng, 0).uses);
    }
  }

  // ---- Uplink ----

  /** The size a pass reads, if it gets that far. */
  function SizeOf(c: Config, st: Lock, wire: Bytes): Option<u16>
    requires c.Valid()
  {
    if |wire| < SizeWidth(c) then None else ReadSize(c, st, wire[..SizeWidth(c)])
  }

  /** The data a pass tries to open, if it gets that far. */
  function DataOf(c: Config, st: Lock, wire: Bytes): Option<Bytes>
    requires c.Valid()
  {
    match SizeOf(c, st, wire)
    case None => None
    case Some(size) =>
      var pad := PadLen(c, st);
      var len, body := if size <= pad then 0 else size - pad, wire[SizeWidth(c)..];
      if len == 0 || !c.Supported() || (c.sec != SEC_NONE && len < TAG_LEN) || |body| < len then None
      else Some(body[..len])
  }

  /** The data was opened: with no cipher it always is. */
  predicate Opens(c: Config, st: Lock, wire: Bytes)
    requires c.Valid()
  {
    match DataOf(c, st, wire)
    case None => false
    case Some(ct) => c.Supported() && Open(c, CountAfterSize(c, st), ct).Some?
  }

  /** The counter increments of one pass of the uplink loop: behind an opened size, and behind opened data. */
  function PassTurns(c: Config, st: Lock, wire: Bytes): nat
    requires c.Valid()
  {
    (if c.AuthLen() && SizeOf(c, st, wire).Some? then 1 else 0) + if Opens(c, st, wire) then 1 else 0
  }

  /** A call that fails is not followed by an increment. */
  predicate PassFails(c: Config, st: Lock, wire: Bytes)
    requires c.Valid()
  {
    if SizeOf(c, st, wire).None? then c.AuthLen() && |wire| >= SizeWidth(c)
    else DataOf(c, st, wire).Some? && !Opens(c, st, wire)
  }

  /** The counter increments of the whole uplink loop. */
  function Turns(c: Config, st: Lock, wire: Bytes): nat
    requires c.Valid()
    decreases |wire|
  {
    PassTurns(c, st, wire)
    + match DecodeChunk(c, st, wire) case Got(_, rest, next, _) => Turns(c, next, rest) case End(_, _, _) => 0
  }

  /** The loop ends because an AEAD call fails. */
  predicate Fails(c: Config, st: Lock, wire: Bytes)
    requires c.Valid()
    decreases |wire|
  {
    match DecodeChunk(c, st, wire)
    case Got(_, rest, next, _) => Fails(c, next, rest)
    case End(_, _, _) => PassFails(c, st, wire)
  }

  /** The increments, and one more for a call that was not followed by one. */
  function LastTurn(c: Config, st: Lock, wire: Bytes): nat
    requires c.Valid()
  {
    Turns(c, st, wire) + if Fails(c, st, wire) then 1 else 0
  }

  lemma UsesOfPass(c: Config, st: Lock, wire: Bytes)
    requires c.Valid()
    ensures var d := DecodeChunk(c, st, wire);
            d.uses == (if c.AuthLen() && |wire| >= SizeWidth(c) then LenUses(c, st.count) else [])
                      + (if DataOf(c, st, wire).Some? then DataUses(c, CountAfterSize(c, st)) else [])
            && (d.Got? ==> Opens(c, st, wire) && d.next.count == Succ16(CountAfterSize(c, st)))
  {
  }

  lemma PassUses(c: Config, st: Lock, wire: Bytes)
    requires c.Valid()
    ensures UsesFrom(c, true, st.count, DecodeChunk(c, st, wire).uses)
  {
    UsesOfPass(c, st, wire);
    assert CountAt(c, st.count, 0) == st.count;
    assert c.sec != SEC_NONE ==> CountAt(c, st.count, 1) == Succ16(st.count);
  }

  /** How many calls a pass makes, in terms of the increments of the counter. */
  lemma PassCalls(c: Config, st: Lock, wire: Bytes)
    requires c.Valid()
    ensures var d := DecodeChunk(c, st, wire);
            var turns := PassTurns(c, st, wire) + if PassFails(c, st, wire) then 1 else 0;
            && (HasCalls(c) ==> turns <= Increments(c, |d.uses|) <= turns + if c.sec == SEC_NONE then 1 else 0)
            && (d.Got? ==>
                  !PassFails(c, st, wire) && PassTurns(c, st, wire) == TurnsPerChunk(c) && |d.uses| == CallsPerChunk(c))
  {
    UsesOfPass(c, st, wire);
  }

  /** The next pass goes on where the calls of this one ended. */
  lemma PassLock(c: Config, st: Lock, wire: Bytes)
    requires c.Valid() && HasCalls(c) && DecodeChunk(c, st, wire).Got?
    ensures var d := DecodeChunk(c, st, wire);
            && d.next.count % 0x10000 == (st.count + Increments(c, |d.uses|)) % 0x10000
            && (TwoKeys(c) ==> |d.uses| % 2 == 0)
  {
    UsesOfPass(c, st, wire);
    PassCalls(c, st, wire);
    ModShift(st.count + 1, 1);
  }

  lemma {:induction false} DecodeUses(c: Config, st: Lock, wire: Bytes)
    requires c.Valid() && HasCalls(c)
    ensures UsesFrom(c, true, st.count, Decode(c, st, wire).uses)
    decreases |wire|
  {
    var d := DecodeChunk(c, st, wire);
    PassUses(c, st, wire);
    if d.End? {
    } else {
      DecodeUses(c, d.next, d.rest);
      PassJoins(c, st, wire, Decode(c, d.next, d.rest).uses);
    }
  }

  lemma PassJoins(c: Config, st: Lock, wire: Bytes, more: seq<Use>)
    requires c.Valid() && HasCalls(c) && DecodeChunk(c, st, wire).Got?
    requires UsesFrom(c, true, DecodeChunk(c, st, wire).next.count, more)
    ensures UsesFrom(c, true, st.count, DecodeChunk(c, st, wire).uses + more)
  {
    var d := DecodeChunk(c, st, wire);
    PassUses(c, st, wire);
    PassLock(c, st, wire);
    UsesJoin(c, true, st.count, d.uses, d.next.count, more);
  }

  lemma {:induction false} DecodeCalls(c: Config, st: Lock, wire: Bytes)
    requires c.Valid()
    ensures var n := |Decode(c, st, wire).uses|;
            if HasCalls(c)
            then LastTurn(c, st, wire) <= Increments(c, n) <= LastTurn(c, st, wire) + if c.sec == SEC_NONE then 1 else 0
            else n == 0
    decreases |wire|
  {
    var d := DecodeChunk(c, st, wire);
    PassCalls(c, st, wire);
    UsesOfPass(c, st, wire);
    if d.End? {
    } else {
      DecodeCalls(c, d.next, d.rest);
    }
  }

  /** Uplink, under every option and on every wire a peer may send, authentic or not: no key and nonce are used twice
      exactly when no AEAD is used at all or the counter has been incremented at most 2^16 times, one less if the last
      call fails. */
  lemma UpNoncesDistinctIff(c: Config, wire: Bytes)
    requires c.Valid()
    ensures UsesDistinct(Up(c, wire).uses) <==> c.Copying() || !HasCalls(c) || LastTurn(c, START, wire) <= 0x10000
  {
    if !c.Copying() {
      DecodeCalls(c, START, wire);
      if HasCalls(c) {
        DecodeUses(c, START, wire);
        DistinctIff(c, true, 0, Decode(c, START, wire).uses);
      }
    }
  }
}
