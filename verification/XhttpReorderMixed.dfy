/** Sessions that receive both numbered packets and stream chunks: each kind keeps its own order. */
module XhttpReorderMixed {
  import opened Bytes
  import opened XhttpReorder
  import opened XhttpReorderProofs

  /** `all` is `a` and `b` interleaved, each in its own order. */
  ghost predicate Shuffle(a: Bytes, b: Bytes, all: Bytes)
    decreases |all|
  {
    if |all| == 0 then a == [] && b == []
    else
      var n, x := |all| - 1, all[|all| - 1];
      || (|a| > 0 && a[|a| - 1] == x && Shuffle(a[..|a| - 1], b, all[..n]))
      || (|b| > 0 && b[|b| - 1] == x && Shuffle(a, b[..|b| - 1], all[..n]))
  }

  lemma {:induction false} ShuffleSwaps(a: Bytes, b: Bytes, all: Bytes)
    requires Shuffle(a, b, all)
    ensures Shuffle(b, a, all)
    decreases |all|
  {
    if |all| == 0 {
    } else {
      var n, x := |all| - 1, all[|all| - 1];
      if |a| > 0 && a[|a| - 1] == x && Shuffle(a[..|a| - 1], b, all[..n]) {
        ShuffleSwaps(a[..|a| - 1], b, all[..n]);
      } else {
        ShuffleSwaps(a, b[..|b| - 1], all[..n]);
      }
    }
  }

  lemma {:induction false} ShuffleMore(a: Bytes, b: Bytes, all: Bytes, more: Bytes)
    requires Shuffle(a, b, all)
    ensures Shuffle(a + more, b, all + more)
    decreases |more|
  {
    if |more| == 0 {
      assert a + more == a && all + more == all;
    } else {
      var init, x := more[..|more| - 1], more[|more| - 1];
      ShuffleMore(a, b, all, init);
      assert (a + more)[..|a + more| - 1] == a + init && (all + more)[..|all + more| - 1] == all + init;
    }
  }

  lemma ShuffleMoreChunks(a: Bytes, b: Bytes, all: Bytes, more: Bytes)
    requires Shuffle(a, b, all)
    ensures Shuffle(a, b + more, all + more)
  {
    ShuffleSwaps(a, b, all);
    ShuffleMore(b, a, all, more);
    ShuffleSwaps(b + more, a, all + more);
  }

  /** A packet's contents are those of its number; chunks may be anything. */
  ghost predicate PacketsFrom(data: nat -> Bytes, ps: seq<UploadPacket>) {
    forall p :: p in ps && p.Packet? ==> p.data == data(p.num)
  }

  /** `packets` and `chunks` are the delivered bytes that came out of packets and out of chunks. */
  ghost predicate Mixed(data: nat -> Bytes, h: Hist, packets: Bytes, chunks: Bytes) {
    && PacketsFrom(data, h.s.rx) && HeapFrom(data, h.s.heap)
    && Shuffle(packets, chunks, h.got)
    && packets + h.s.leftover == Upto(data, h.s.next)
    && chunks + (h.s.buffered + ChunkBytes(h.s.rx)) == ChunkBytes(h.arrived)
  }

  lemma {:induction false} AbsorbMixed(data: nat -> Bytes, h: Hist, packets: Bytes, chunks: Bytes)
    requires Mixed(data, h, packets, chunks)
    ensures Mixed(data, h.(s := Absorb(h.s)), packets, chunks)
    decreases |h.s.rx|
  {
    var s := h.s;
    if Idle(s) && |s.rx| > 0 && s.rx[0].Packet? {
      assert s.rx[0] in s.rx;
      assert [] + ChunkBytes(s.rx[1..]) == ChunkBytes(s.rx[1..]);
      var t := s.(rx := s.rx[1..], heap := s.heap + [Entry(s.rx[0].num, s.rx[0].data)]);
      AbsorbMixed(data, h.(s := t), packets, chunks);
    }
  }

  /** Some bytes taken off the front of a buffer. */
  lemma Taken(before: Bytes, b: Bytes, n: nat, more: Bytes)
    requires n <= |b|
    ensures before + b[..n] + (b[n..] + more) == before + (b + more)
    ensures before + b[..n] + b[n..] == before + b
  {
    FromFront(before, b, n, more);
    TakeInOrder(before, b, n);
  }

  lemma FinishMixed(data: nat -> Bytes, h: Hist, room: nat, r: Poll, k: Hist, packets: Bytes, chunks: Bytes)
    returns (packets': Bytes, chunks': Bytes)
    requires Mixed(data, h, packets, chunks) && Finish(h.s, room, k.s, r)
    requires k.arrived == h.arrived && k.got == h.got + if r.Ready? then r.got else []
    ensures Mixed(data, k, packets', chunks')
  {
    var s := h.s;
    packets', chunks' := packets, chunks;
    assert h.got + [] == h.got;
    if s.leftover != [] {
      packets' := packets + r.got;
      Taken(packets, s.leftover, Min(|s.leftover|, room), []);
      ShuffleMore(packets, chunks, h.got, r.got);
    } else if s.buffered != [] {
      chunks' := chunks + r.got;
      Taken(chunks, s.buffered, Min(|s.buffered|, room), ChunkBytes(s.rx));
      ShuffleMoreChunks(packets, chunks, h.got, r.got);
    } else if TopIs(s.heap, s.next) {
      packets' := packets + r.got;
      PopMixed(data, h, room, r, k, packets, chunks);
    } else if !s.eof && |s.rx| > 0 && !s.rx[0].Packet? {
      chunks' := chunks + r.got;
      ChunkMixed(data, h, room, r, k, packets, chunks);
    }
  }

  lemma PopMixed(data: nat -> Bytes, h: Hist, room: nat, r: Poll, k: Hist, packets: Bytes, chunks: Bytes)
    requires Mixed(data, h, packets, chunks) && h.s.leftover == [] && h.s.buffered == [] && TopIs(h.s.heap, h.s.next)
    requires Finish(h.s, room, k.s, r) && k.arrived == h.arrived && k.got == h.got + r.got
    ensures Mixed(data, k, packets + r.got, chunks)
  {
    var s := h.s;
    var i :| 0 <= i < |s.heap| && IsTop(s.heap, i) && Pops(s, i, room, k.s, r);
    PoppedPacket(data, s, i, packets, Min(|s.heap[i].data|, room));
    ShuffleMore(packets, chunks, h.got, r.got);
  }

  lemma PoppedPacket(data: nat -> Bytes, s: State, i: nat, packets: Bytes, n: nat)
    requires HeapFrom(data, s.heap) && TopIs(s.heap, s.next)
    requires i < |s.heap| && IsTop(s.heap, i) && n <= |s.heap[i].data|
    requires s.leftover == [] && packets + s.leftover == Upto(data, s.next)
    ensures HeapFrom(data, Without(s.heap, i))
    ensures packets + s.heap[i].data[..n] + s.heap[i].data[n..] == Upto(data, s.next + 1)
  {
    TopDecides(s.heap, i, s.next);
    assert s.heap[i] in s.heap;
    assert packets + [] == packets;
    Taken(packets, s.heap[i].data, n, []);
  }

  lemma ChunkMixed(data: nat -> Bytes, h: Hist, room: nat, r: Poll, k: Hist, packets: Bytes, chunks: Bytes)
    requires Mixed(data, h, packets, chunks) && Idle(h.s) && |h.s.rx| > 0 && !h.s.rx[0].Packet?
    requires Finish(h.s, room, k.s, r) && k.arrived == h.arrived && k.got == h.got + r.got
    ensures Mixed(data, k, packets, chunks + r.got)
  {
    var s := h.s;
    ShuffleMoreChunks(packets, chunks, h.got, r.got);
    assert [] + ChunkBytes(s.rx) == ChunkBytes(s.rx);
    if s.rx[0].Chunk? {
      Taken(chunks, s.rx[0].data, Min(|s.rx[0].data|, room), ChunkBytes(s.rx[1..]));
    } else {
      assert [] + ChunkBytes(s.rx[1..]) == ChunkBytes(s.rx[1..]);
      assert chunks + [] == chunks;
    }
  }

  lemma ArriveMixed(data: nat -> Bytes, h: Hist, p: UploadPacket, k: Hist, packets: Bytes, chunks: Bytes)
    requires Mixed(data, h, packets, chunks) && Step(h, Arrive(p), k) && PacketsFrom(data, k.arrived)
    ensures Mixed(data, k, packets, chunks)
  {
    assert p in k.arrived;
    ChunkBytesSnoc(h.s.rx, p);
    ChunkBytesSnoc(h.arrived, p);
    var more := if p.Chunk? then p.data else [];
    Assoc(h.s.buffered, ChunkBytes(h.s.rx), more);
    Assoc(chunks, h.s.buffered + ChunkBytes(h.s.rx), more);
  }

  /** Whatever arrives, packets and chunks in any mix, and whatever the buffer sizes: what is delivered is packets
      0 .. next - 1 in order, interleaved with the chunks in order, without what is still buffered of either. */
  lemma {:induction false} RunIsShuffle(data: nat -> Bytes, hs: seq<Hist>, acts: seq<Action>)
    returns (packets: Bytes, chunks: Bytes)
    requires Run(hs, acts) && PacketsFrom(data, hs[|acts|].arrived)
    ensures var h := hs[|acts|];
            && Shuffle(packets, chunks, h.got)
            && packets + h.s.leftover == Upto(data, h.s.next)
            && chunks + (h.s.buffered + ChunkBytes(h.s.rx)) == ChunkBytes(h.arrived)
            && Mixed(data, h, packets, chunks)
    decreases |acts|
  {
    if |acts| == 0 {
      packets, chunks := [], [];
    } else {
      var n := |acts| - 1;
      var h, k := hs[n], hs[n + 1];
      assert Step(h, acts[n], k);
      assert forall p :: p in h.arrived ==> p in k.arrived;
      packets, chunks := RunIsShuffle(data, hs[..n + 1], acts[..n]);
      match acts[n]
      case Arrive(p) => ArriveMixed(data, h, p, k, packets, chunks);
      case Close =>
      case Read(room, r) =>
        AbsorbMixed(data, h, packets, chunks);
        packets, chunks := FinishMixed(data, h.(s := Absorb(h.s)), room, r, k, packets, chunks);
    }
  }
}
