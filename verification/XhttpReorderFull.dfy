/** What a reader is sure to be given, packets and chunks in any mix, and when it is told the end of the stream. */
module XhttpReorderFull {
  import opened Bytes
  import opened XhttpReorder
  import opened XhttpReorderProofs
  import opened XhttpReorderLimits
  import Mixed = XhttpReorderMixed

  // ---- An empty result ----

  /** Neither a packet nor a chunk among them is empty. */
  predicate NoEmpty(ps: seq<UploadPacket>) {
    forall p :: p in ps && !p.Eof? ==> p.data != []
  }

  /** Every entry of the heap is a packet that has been taken off the channel. */
  ghost predicate HeldFrom(heap: seq<Entry>, taken: seq<UploadPacket>) {
    forall e :: e in heap ==> Packet(e.num, e.data) in taken
  }

  /** The end of the stream has been taken off the channel, or the channel is closed and has run dry. */
  ghost predicate Ended(h: Hist)
    requires Fifo(h.arrived, h.s.rx)
  {
    Eof in TakenOf(h.arrived, h.s.rx) || (!h.s.open && h.s.rx == [])
  }

  ghost predicate Tracked(h: Hist) {
    && Fifo(h.arrived, h.s.rx) && HeldFrom(h.s.heap, TakenOf(h.arrived, h.s.rx))
    && (h.s.eof ==> Ended(h))
  }

  /** One item more has been taken. */
  lemma TakenMore(arrived: seq<UploadPacket>, rx: seq<UploadPacket>)
    requires Fifo(arrived, rx) && |rx| > 0
    ensures Fifo(arrived, rx[1..]) && TakenOf(arrived, rx[1..]) == TakenOf(arrived, rx) + [rx[0]]
  {
    var n := |arrived| - |rx|;
    assert arrived[n..][0] == arrived[n];
  }

  lemma {:induction false} AbsorbTracked(h: Hist)
    requires Tracked(h)
    ensures Tracked(h.(s := Absorb(h.s)))
    decreases |h.s.rx|
  {
    var s := h.s;
    if Idle(s) && |s.rx| > 0 && s.rx[0].Packet? {
      TakenMore(h.arrived, s.rx);
      var e := Entry(s.rx[0].num, s.rx[0].data);
      assert Packet(e.num, e.data) == s.rx[0];
      AbsorbTracked(h.(s := s.(rx := s.rx[1..], heap := s.heap + [e])));
    }
  }

  lemma WithoutIn(heap: seq<Entry>, i: nat)
    requires i < |heap|
    ensures forall e :: e in Without(heap, i) ==> e in heap
  {
  }

  lemma FinishTracked(h: Hist, room: nat, r: Poll, k: Hist)
    requires Tracked(h) && Finish(h.s, room, k.s, r) && k.arrived == h.arrived
    requires Idle(h.s) ==> h.s.rx == [] || !h.s.rx[0].Packet?
    ensures Tracked(k)
  {
    var s := h.s;
    if s.leftover == [] && s.buffered == [] && TopIs(s.heap, s.next) {
      var i :| 0 <= i < |s.heap| && IsTop(s.heap, i) && Pops(s, i, room, k.s, r);
      WithoutIn(s.heap, i);
    } else if Idle(s) && |s.rx| > 0 {
      TakenMore(h.arrived, s.rx);
    }
  }

  lemma ArriveTracked(h: Hist, p: UploadPacket, k: Hist)
    requires Tracked(h) && Step(h, Arrive(p), k)
    ensures Tracked(k)
  {
    assert TakenOf(k.arrived, k.s.rx) == TakenOf(h.arrived, h.s.rx);
  }

  lemma {:induction false} RunTracked(hs: seq<Hist>, acts: seq<Action>)
    requires Run(hs, acts)
    ensures Tracked(hs[|acts|])
    decreases |acts|
  {
    if |acts| == 0 {
    } else {
      var h, k, n := LastStep(hs, acts);
      RunTracked(hs[..n + 1], acts[..n]);
      match acts[n]
      case Arrive(p) => ArriveTracked(h, p, k);
      case Close =>
      case Read(room, r) =>
        AbsorbTracked(h);
        FinishTracked(h.(s := Absorb(h.s)), room, r, k);
    }
  }

  lemma PopGives(s: State, i: nat, room: nat, t: State, r: Poll)
    requires i < |s.heap| && Pops(s, i, room, t, r) && s.heap[i].data != [] && room > 0
    ensures r.Ready? && |r.got| > 0
  {
  }

  /** A pass with room returns bytes, waits or reaches the end. */
  lemma FinishSome(s: State, room: nat, t: State, r: Poll)
    requires Finish(s, room, t, r) && room > 0
    requires Idle(s) ==> s.rx == [] || !s.rx[0].Packet?
    requires (forall e :: e in s.heap ==> e.data != []) && NoEmpty(s.rx)
    ensures t.eof || r == Pending || |r.got| > 0
  {
    if s.leftover == [] && s.buffered == [] && TopIs(s.heap, s.next) {
      var i :| 0 <= i < |s.heap| && IsTop(s.heap, i) && Pops(s, i, room, t, r);
      assert s.heap[i] in s.heap;
      PopGives(s, i, room, t, r);
    } else if Idle(s) && |s.rx| > 0 {
      assert s.rx[0] in s.rx;
    }
  }

  /** In every run of non-empty items, a read with room that returns no bytes has reached the end of the stream,
      which has been sent, or the channel is closed and has run dry. */
  lemma EmptyReadIsEnd(hs: seq<Hist>, acts: seq<Action>, n: nat, room: nat)
    requires Run(hs, acts) && n < |acts| && acts[n] == Read(room, Ready([])) && room > 0
    requires NoEmpty(hs[n].arrived)
    ensures var k := hs[n + 1];
            k.s.eof && (Eof in k.arrived || (!k.s.open && k.s.rx == []))
  {
    var h, k := hs[n], hs[n + 1];
    assert Step(h, acts[n], k);
    assert Run(hs[..n + 1], acts[..n]) && Run(hs[..n + 2], acts[..n + 1]);
    RunTracked(hs[..n + 1], acts[..n]);
    RunTracked(hs[..n + 2], acts[..n + 1]);
    AbsorbTracked(h);
    NoEmptyHeld(h.(s := Absorb(h.s)));
    FinishSome(Absorb(h.s), room, k.s, Ready([]));
    assert forall p :: p in TakenOf(k.arrived, k.s.rx) ==> p in k.arrived;
  }

  lemma NoEmptyHeld(h: Hist)
    requires Tracked(h) && NoEmpty(h.arrived)
    ensures (forall e :: e in h.s.heap ==> e.data != []) && NoEmpty(h.s.rx)
  {
    forall e | e in h.s.heap
      ensures e.data != []
    {
      assert Packet(e.num, e.data) in h.arrived;
    }
    assert forall p :: p in h.s.rx ==> p in h.arrived;
  }

  // ---- A closed channel ----

  /** The work left: every held byte, and every held item. */
  function Weight(s: State): nat {
    |s.leftover| + |s.buffered| + HeapWeight(s.heap) + RxWeight(s.rx)
  }

  function HeapWeight(heap: seq<Entry>): nat {
    if |heap| == 0 then 0 else HeapWeight(heap[..|heap| - 1]) + 1 + |heap[|heap| - 1].data|
  }

  function RxWeight(rx: seq<UploadPacket>): nat {
    if |rx| == 0 then 0 else RxWeight(rx[1..]) + 1 + if rx[0].Eof? then 0 else |rx[0].data|
  }

  lemma {:induction false} HeapWeightJoin(a: seq<Entry>, b: seq<Entry>)
    ensures HeapWeight(a + b) == HeapWeight(a) + HeapWeight(b)
    decreases |b|
  {
    if |b| == 0 {
      assert a + b == a;
    } else {
      var n := |b| - 1;
      assert (a + b)[..|a + b| - 1] == a + b[..n];
      HeapWeightJoin(a, b[..n]);
    }
  }

  lemma OneWeight(e: Entry)
    ensures HeapWeight([e]) == 1 + |e.data|
  {
    assert [e][..0] == [];
  }

  lemma WithoutWeight(heap: seq<Entry>, i: nat)
    requires i < |heap|
    ensures HeapWeight(heap) == HeapWeight(Without(heap, i)) + 1 + |heap[i].data|
  {
    var a, b := heap[..i], heap[i + 1..];
    HeapWeightJoin(a, b);
    HeapWeightJoin(a + [heap[i]], b);
    HeapWeightJoin(a, [heap[i]]);
    OneWeight(heap[i]);
    assert heap == a + [heap[i]] + b;
  }

  lemma {:induction false} AbsorbWeight(s: State)
    ensures Weight(Absorb(s)) == Weight(s)
    decreases |s.rx|
  {
    if Idle(s) && |s.rx| > 0 && s.rx[0].Packet? {
      var e := Entry(s.rx[0].num, s.rx[0].data);
      HeapWeightJoin(s.heap, [e]);
      OneWeight(e);
      AbsorbWeight(s.(rx := s.rx[1..], heap := s.heap + [e]));
    }
  }

  /** A read has made progress, if it had room, or has met the end. */
  ghost predicate Lighter(s: State, room: nat, t: State, r: Poll) {
    r.Ready? && !t.open && (t.eof || Weight(t) + Min(room, 1) <= Weight(s)) && (s.eof ==> t.eof)
  }

  lemma BufferWeight(s: State, room: nat, t: State, r: Poll)
    requires Finish(s, room, t, r) && !s.open && (s.leftover != [] || s.buffered != [])
    ensures Lighter(s, room, t, r)
  {
  }

  lemma PopWeight(s: State, i: nat, room: nat, t: State, r: Poll)
    requires i < |s.heap| && Pops(s, i, room, t, r) && !s.open && s.leftover == []
    ensures Lighter(s, room, t, r)
  {
    WithoutWeight(s.heap, i);
  }

  lemma RestWeight(s: State, room: nat, t: State, r: Poll)
    requires Finish(s, room, t, r) && !s.open && s.leftover == [] && s.buffered == [] && !TopIs(s.heap, s.next)
    requires Idle(s) ==> s.rx == [] || !s.rx[0].Packet?
    ensures Lighter(s, room, t, r)
  {
  }

  lemma FinishWeight(s: State, room: nat, t: State, r: Poll)
    requires Finish(s, room, t, r) && !s.open
    requires Idle(s) ==> s.rx == [] || !s.rx[0].Packet?
    ensures Lighter(s, room, t, r)
  {
    if s.leftover != [] || s.buffered != [] {
      BufferWeight(s, room, t, r);
    } else if TopIs(s.heap, s.next) {
      var i :| 0 <= i < |s.heap| && IsTop(s.heap, i) && Pops(s, i, room, t, r);
      PopWeight(s, i, room, t, r);
    } else {
      RestWeight(s, room, t, r);
    }
  }

  /** Once the channel is closed no read waits, and every read with room takes something away or reaches the end. */
  lemma ClosedRead(s: State, room: nat, t: State, r: Poll)
    requires PollStep(s, room, t, r) && !s.open
    ensures Lighter(s, room, t, r)
  {
    AbsorbWeight(s);
    FinishWeight(Absorb(s), room, t, r);
  }

  /** Once the last sender is gone no read waits, and more reads with room than there is work left tell the reader the
      end of the stream. */
  lemma {:induction false} ClosedEnds(hs: seq<Hist>, acts: seq<Action>)
    requires Steps(hs, acts) && !hs[0].s.open
    ensures forall a :: a in acts && a.Read? ==> a.r.Ready?
    ensures var s := hs[|acts|].s;
            !s.open && (s.eof || Weight(s) + RoomyReads(acts) <= Weight(hs[0].s))
    ensures RoomyReads(acts) > Weight(hs[0].s) ==> hs[|acts|].s.eof
    decreases |acts|
  {
    if |acts| == 0 {
    } else {
      var n := |acts| - 1;
      ClosedEnds(hs[..n + 1], acts[..n]);
      var h, a, k := hs[n], acts[n], hs[n + 1];
      assert Step(h, a, k) && !h.s.open;
      assert acts == acts[..n] + [a];
      if a.Read? {
        ClosedRead(h.s, a.room, k.s, a.r);
      }
    }
  }

  // ---- All items ahead of the end of the stream ----

  /** The items in front of the end of the stream. */
  function Lead(ps: seq<UploadPacket>): (l: seq<UploadPacket>)
    ensures l <= ps && Eof !in l
    ensures l == ps || ps[|l|] == Eof
  {
    if |ps| == 0 || ps[0].Eof? then [] else [ps[0]] + Lead(ps[1..])
  }

  /** How many bytes some items have. */
  function Size(ps: seq<UploadPacket>): nat {
    if |ps| == 0 then 0 else (if ps[0].Eof? then 0 else |ps[0].data|) + Size(ps[1..])
  }

  lemma {:induction false} SizeIsTotal(ps: seq<UploadPacket>)
    ensures |Total(ps, PktBytes)| == Size(ps)
  {
    if |ps| == 0 {
    } else {
      SizeIsTotal(ps[1..]);
    }
  }

  lemma {:induction false} SizeJoin(a: seq<UploadPacket>, b: seq<UploadPacket>)
    ensures Size(a + b) == Size(a) + Size(b)
  {
    if |a| == 0 {
      assert a + b == b;
    } else {
      assert (a + b)[1..] == a[1..] + b;
      SizeJoin(a[1..], b);
    }
  }

  lemma {:induction false} ChunkBytesJoin(a: seq<UploadPacket>, b: seq<UploadPacket>)
    ensures ChunkBytes(a + b) == ChunkBytes(a) + ChunkBytes(b)
  {
    if |a| == 0 {
      assert a + b == b;
    } else {
      assert (a + b)[1..] == a[1..] + b;
      ChunkBytesJoin(a[1..], b);
      Assoc(if a[0].Chunk? then a[0].data else [], ChunkBytes(a[1..]), ChunkBytes(b));
    }
  }

  /** Packets 0 .. n - 1 and the chunks among `lead` are out of all buffers. */
  ghost predicate Out(data: nat -> Bytes, n: nat, lead: seq<UploadPacket>, h: Hist) {
    && |Upto(data, n)| + |h.s.leftover| <= |Upto(data, h.s.next)|
    && |ChunkBytes(lead)| + |h.s.buffered| + |ChunkBytes(h.s.rx)| <= |ChunkBytes(h.arrived)|
  }

  /** What every state of such a run satisfies, and the packets promised. */
  ghost predicate Base(data: nat -> Bytes, n: nat, lead: seq<UploadPacket>, h: Hist) {
    && Conserved(h) && DistinctNums(h.arrived) && Tracked(h) && Eof !in lead
    && (forall k: nat :: k < n ==> Total(lead, PktNum)[k] >= 1)
    && HeapFrom(data, h.s.heap)
  }

  ghost predicate Past(lead: seq<UploadPacket>, h: Hist)
    requires Fifo(h.arrived, h.s.rx)
  {
    var taken := TakenOf(h.arrived, h.s.rx);
    lead <= taken && (|taken| > |lead| || h.s.eof)
  }

  /** The reader goes past the promised items only when all of them are out. */
  ghost predicate Promised(data: nat -> Bytes, n: nat, lead: seq<UploadPacket>, h: Hist) {
    Base(data, n, lead, h) && (Past(lead, h) ==> Out(data, n, lead, h))
  }

  /** With the promised items taken, the buffers empty and the next packet not there, everything is out. */
  lemma IdleOut(data: nat -> Bytes, n: nat, lead: seq<UploadPacket>, h: Hist)
    requires Base(data, n, lead, h) && lead <= TakenOf(h.arrived, h.s.rx)
    requires h.s.leftover == [] && h.s.buffered == [] && !TopIs(h.s.heap, h.s.next)
    ensures Out(data, n, lead, h)
  {
    var taken := TakenOf(h.arrived, h.s.rx);
    ChunkBytesJoin(taken, h.s.rx);
    assert h.arrived == taken + h.s.rx;
    ChunkBytesJoin(lead, taken[|lead|..]);
    assert taken == lead + taken[|lead|..];
    if h.s.next < n {
      PrefixCounts(lead, taken, h.s.next);
      AwaitedTop(h);
    }
    UptoGrows(data, n, h.s.next);
  }

  lemma AwaitedTop(h: Hist)
    requires Conserved(h) && DistinctNums(h.arrived) && Fifo(h.arrived, h.s.rx)
    requires Total(TakenOf(h.arrived, h.s.rx), PktNum)[h.s.next] >= 1
    ensures TopIs(h.s.heap, h.s.next)
  {
    FifoCounts(h.arrived, h.s.rx, h.s.next);
    TakenIs(h, h.s.next);
    NumbersOnce(h);
    forall e | e in h.s.heap
      ensures e.num >= h.s.next
    {
      HeapCounts(h.s.heap, e.num);
      assert KnownNums(h.s)[e.num] <= 1;
    }
    NotStaleTop(h.s);
  }

  lemma MoveBase(data: nat -> Bytes, n: nat, lead: seq<UploadPacket>, h: Hist, k: Hist, e: Entry)
    requires Base(data, n, lead, h) && Idle(h.s) && |h.s.rx| > 0 && h.s.rx[0] == Packet(e.num, e.data)
    requires e.data == data(e.num)
    requires k == h.(s := h.s.(rx := h.s.rx[1..], heap := h.s.heap + [e]))
    ensures Base(data, n, lead, k) && (Out(data, n, lead, k) <==> Out(data, n, lead, h))
  {
    MoveKeeps(h.s, e);
    TakenMore(h.arrived, h.s.rx);
    assert [] + ChunkBytes(h.s.rx[1..]) == ChunkBytes(h.s.rx[1..]);
  }

  lemma MovePromised(data: nat -> Bytes, n: nat, lead: seq<UploadPacket>, h: Hist, k: Hist, e: Entry)
    requires Promised(data, n, lead, h) && Idle(h.s) && |h.s.rx| > 0 && h.s.rx[0] == Packet(e.num, e.data)
    requires e.data == data(e.num)
    requires k == h.(s := h.s.(rx := h.s.rx[1..], heap := h.s.heap + [e]))
    ensures Promised(data, n, lead, k) && (Out(data, n, lead, k) <==> Out(data, n, lead, h))
  {
    MoveBase(data, n, lead, h, k, e);
    TakenMore(h.arrived, h.s.rx);
    var taken := TakenOf(h.arrived, h.s.rx);
    if Past(lead, k) && lead <= taken {
      IdleOut(data, n, lead, h);
    }
  }

  lemma {:induction false} AbsorbPromised(data: nat -> Bytes, n: nat, lead: seq<UploadPacket>, h: Hist)
    requires Promised(data, n, lead, h) && Mixed.PacketsFrom(data, h.arrived)
    ensures var k := h.(s := Absorb(h.s));
            Promised(data, n, lead, k) && (Out(data, n, lead, k) <==> Out(data, n, lead, h))
    decreases |h.s.rx|
  {
    var s := h.s;
    if Idle(s) && |s.rx| > 0 && s.rx[0].Packet? {
      assert s.rx[0] in h.arrived;
      var e := Entry(s.rx[0].num, s.rx[0].data);
      var k := h.(s := s.(rx := s.rx[1..], heap := s.heap + [e]));
      MovePromised(data, n, lead, h, k, e);
      AbsorbPromised(data, n, lead, k);
    }
  }

  lemma PopOut(data: nat -> Bytes, n: nat, lead: seq<UploadPacket>, h: Hist, room: nat, r: Poll, k: Hist)
    requires HeapFrom(data, h.s.heap) && Finish(h.s, room, k.s, r) && k.arrived == h.arrived
    requires h.s.leftover == [] && h.s.buffered == [] && TopIs(h.s.heap, h.s.next)
    requires Out(data, n, lead, h)
    ensures Out(data, n, lead, k)
  {
    var s := h.s;
    var i :| 0 <= i < |s.heap| && IsTop(s.heap, i) && Pops(s, i, room, k.s, r);
    TopDecides(s.heap, i, s.next);
    assert s.heap[i] in s.heap;
  }

  lemma ItemOut(data: nat -> Bytes, n: nat, lead: seq<UploadPacket>, h: Hist, room: nat, r: Poll, k: Hist)
    requires Finish(h.s, room, k.s, r) && k.arrived == h.arrived && Idle(h.s)
    requires h.s.rx == [] || !h.s.rx[0].Packet?
    requires Out(data, n, lead, h)
    ensures Out(data, n, lead, k)
  {
  }

  /** Bytes that are out stay out. */
  lemma FinishOut(data: nat -> Bytes, n: nat, lead: seq<UploadPacket>, h: Hist, room: nat, r: Poll, k: Hist)
    requires HeapFrom(data, h.s.heap) && Finish(h.s, room, k.s, r) && k.arrived == h.arrived
    requires Idle(h.s) ==> h.s.rx == [] || !h.s.rx[0].Packet?
    requires Out(data, n, lead, h)
    ensures Out(data, n, lead, k)
  {
    if h.s.leftover == [] && h.s.buffered == [] {
      if TopIs(h.s.heap, h.s.next) {
        PopOut(data, n, lead, h, room, r, k);
      } else if !h.s.eof {
        ItemOut(data, n, lead, h, room, r, k);
      }
    }
  }

  lemma FinishPromised(data: nat -> Bytes, n: nat, lead: seq<UploadPacket>, h: Hist, room: nat, r: Poll, k: Hist)
    requires Promised(data, n, lead, h) && Base(data, n, lead, k)
    requires Finish(h.s, room, k.s, r) && k.arrived == h.arrived
    requires Idle(h.s) ==> h.s.rx == [] || !h.s.rx[0].Packet?
    ensures Promised(data, n, lead, k)
  {
    if Past(lead, k) {
      if !Past(lead, h) {
        LeadTaken(lead, h, room, r, k);
        IdleOut(data, n, lead, h);
      }
      FinishOut(data, n, lead, h, room, r, k);
    }
  }

  /** A pass that is not idle takes nothing off the channel, an idle one at most one item, which is the end of the
      stream or not. */
  lemma PassTakes(s: State, room: nat, t: State, r: Poll)
    requires Finish(s, room, t, r)
    ensures (t.rx == s.rx && t.eof == s.eof) || Idle(s)
    ensures t.rx == s.rx || (|s.rx| > 0 && t.rx == s.rx[1..] && t.eof == (s.rx[0] == Eof || s.rx[0].Packet?))
  {
  }

  lemma OneBefore(lead: seq<UploadPacket>, taken: seq<UploadPacket>, p: UploadPacket)
    ensures lead <= taken + [p] && |lead| <= |taken| ==> lead <= taken
    ensures lead <= taken + [p] && |lead| > |taken| ==> p in lead
  {
    if lead <= taken + [p] && |lead| > |taken| {
      assert lead[|taken|] == (taken + [p])[|taken|];
    }
  }

  /** A read that goes past the promised items finds them all taken, and nothing to hand out. */
  lemma LeadTaken(lead: seq<UploadPacket>, h: Hist, room: nat, r: Poll, k: Hist)
    requires Fifo(h.arrived, h.s.rx) && Fifo(k.arrived, k.s.rx) && !Past(lead, h) && Past(lead, k)
    requires Finish(h.s, room, k.s, r) && k.arrived == h.arrived && Eof !in lead
    requires Idle(h.s) ==> h.s.rx == [] || !h.s.rx[0].Packet?
    ensures Idle(h.s) && lead <= TakenOf(h.arrived, h.s.rx)
  {
    PassTakes(h.s, room, k.s, r);
    if |h.s.rx| > 0 {
      TakenMore(h.arrived, h.s.rx);
      OneBefore(lead, TakenOf(h.arrived, h.s.rx), h.s.rx[0]);
    }
  }

  lemma ArrivePromised(data: nat -> Bytes, n: nat, lead: seq<UploadPacket>, h: Hist, p: UploadPacket, k: Hist)
    requires Promised(data, n, lead, h) && Base(data, n, lead, k) && Step(h, Arrive(p), k)
    ensures Promised(data, n, lead, k) && (Out(data, n, lead, h) ==> Out(data, n, lead, k))
  {
    assert TakenOf(k.arrived, k.s.rx) == TakenOf(h.arrived, h.s.rx);
    ChunkBytesSnoc(h.s.rx, p);
    ChunkBytesSnoc(h.arrived, p);
  }

  /** One step: the promise is kept, and what is out stays out. */
  lemma StepPromised(data: nat -> Bytes, n: nat, lead: seq<UploadPacket>, h: Hist, a: Action, k: Hist)
    requires Promised(data, n, lead, h) && Base(data, n, lead, k) && Step(h, a, k)
    requires Mixed.PacketsFrom(data, h.arrived)
    ensures Promised(data, n, lead, k) && (Out(data, n, lead, h) ==> Out(data, n, lead, k))
  {
    match a
    case Arrive(p) => ArrivePromised(data, n, lead, h, p, k);
    case Close =>
    case Read(room, r) =>
      AbsorbPromised(data, n, lead, h);
      var m := h.(s := Absorb(h.s));
      FinishPromised(data, n, lead, m, room, r, k);
      if Out(data, n, lead, h) {
        FinishOut(data, n, lead, m, room, r, k);
      }
  }

  lemma BaseAt(data: nat -> Bytes, n: nat, lead: seq<UploadPacket>, hs: seq<Hist>, acts: seq<Action>)
    requires Run(hs, acts) && Mixed.PacketsFrom(data, hs[|acts|].arrived) && DistinctNums(hs[|acts|].arrived)
    requires forall k: nat :: k < n ==> Total(lead, PktNum)[k] >= 1
    requires Eof !in lead
    ensures Base(data, n, lead, hs[|acts|])
  {
    EndConserves(hs, acts);
    RunTracked(hs, acts);
    var packets, chunks := Mixed.RunIsShuffle(data, hs, acts);
  }

  lemma Earlier(data: nat -> Bytes, hs: seq<Hist>, acts: seq<Action>, i: nat)
    requires Run(hs, acts) && i <= |acts|
    requires Mixed.PacketsFrom(data, hs[|acts|].arrived) && DistinctNums(hs[|acts|].arrived)
    ensures Run(hs[..i + 1], acts[..i]) && hs[..i + 1][i] == hs[i]
    ensures Mixed.PacketsFrom(data, hs[i].arrived) && DistinctNums(hs[i].arrived)
  {
    ArrivedGrows(hs, acts, i, |acts|);
    var p, q := hs[i].arrived, hs[|acts|].arrived;
    assert forall x :: x in p ==> x in q;
    forall k: nat
      ensures Total(p, PktNum)[k] <= 1
    {
      PrefixCounts(p, q, k);
    }
  }

  lemma {:induction false} RunPromised(data: nat -> Bytes, n: nat, lead: seq<UploadPacket>, hs: seq<Hist>,
                                       acts: seq<Action>)
    requires Run(hs, acts) && Mixed.PacketsFrom(data, hs[|acts|].arrived) && DistinctNums(hs[|acts|].arrived)
    requires forall k: nat :: k < n ==> Total(lead, PktNum)[k] >= 1
    requires Eof !in lead
    ensures Promised(data, n, lead, hs[|acts|])
    decreases |acts|
  {
    BaseAt(data, n, lead, hs, acts);
    if |acts| == 0 {
      StartPromised(data, n, lead, hs[0]);
    } else {
      var h, k, m := LastStep(hs, acts);
      Earlier(data, hs, acts, m);
      RunPromised(data, n, lead, hs[..m + 1], acts[..m]);
      StepPromised(data, n, lead, h, acts[m], k);
    }
  }

  lemma StartPromised(data: nat -> Bytes, n: nat, lead: seq<UploadPacket>, h: Hist)
    requires h == Hist(FRESH, [], []) && Base(data, n, lead, h)
    ensures Promised(data, n, lead, h)
  {
  }

  // ---- Every read delivers ----

  /** Until the reader goes past the promised items, the items taken are some of them. */
  lemma NotPast(lead: seq<UploadPacket>, h: Hist)
    requires Fifo(h.arrived, h.s.rx) && lead <= h.arrived && !Past(lead, h)
    ensures TakenOf(h.arrived, h.s.rx) <= lead
  {
  }

  /** While something promised is missing, a read with room delivers at least one byte. */
  lemma FinishGives(data: nat -> Bytes, n: nat, lead: seq<UploadPacket>, h: Hist, room: nat, r: Poll, k: Hist)
    requires Promised(data, n, lead, h) && !Out(data, n, lead, h)
    requires lead <= h.arrived && NoEmpty(lead) && Eof !in lead
    requires Finish(h.s, room, k.s, r) && room > 0
    requires Idle(h.s) ==> h.s.rx == [] || !h.s.rx[0].Packet?
    ensures r.Ready? && |r.got| > 0
  {
    NotPast(lead, h);
    if h.s.leftover != [] || h.s.buffered != [] {
      BufferGives(h.s, room, k.s, r);
    } else if TopIs(h.s.heap, h.s.next) {
      TopGives(lead, h, room, r, k);
    } else {
      NotAllTaken(data, n, lead, h);
      NextInLead(lead, h);
      NextGives(lead, h.s, room, k.s, r);
    }
  }

  lemma BufferGives(s: State, room: nat, t: State, r: Poll)
    requires Finish(s, room, t, r) && room > 0 && (s.leftover != [] || s.buffered != [])
    ensures r.Ready? && |r.got| > 0
  {
  }

  lemma NextGives(lead: seq<UploadPacket>, s: State, room: nat, t: State, r: Poll)
    requires Finish(s, room, t, r) && room > 0 && Idle(s) && |s.rx| > 0 && !s.rx[0].Packet?
    requires s.rx[0] in lead && NoEmpty(lead) && Eof !in lead
    ensures r.Ready? && |r.got| > 0
  {
  }

  lemma NotAllTaken(data: nat -> Bytes, n: nat, lead: seq<UploadPacket>, h: Hist)
    requires Base(data, n, lead, h) && !Out(data, n, lead, h)
    requires h.s.leftover == [] && h.s.buffered == [] && !TopIs(h.s.heap, h.s.next)
    ensures !(lead <= TakenOf(h.arrived, h.s.rx))
  {
    if lead <= TakenOf(h.arrived, h.s.rx) {
      IdleOut(data, n, lead, h);
    }
  }

  lemma TopGives(lead: seq<UploadPacket>, h: Hist, room: nat, r: Poll, k: Hist)
    requires Tracked(h) && NoEmpty(lead) && TakenOf(h.arrived, h.s.rx) <= lead
    requires h.s.leftover == [] && h.s.buffered == [] && TopIs(h.s.heap, h.s.next)
    requires Finish(h.s, room, k.s, r) && room > 0
    ensures r.Ready? && |r.got| > 0
  {
    var s := h.s;
    var i :| 0 <= i < |s.heap| && IsTop(s.heap, i) && Pops(s, i, room, k.s, r);
    assert s.heap[i] in s.heap;
    PrefixIn(TakenOf(h.arrived, s.rx), lead, Packet(s.heap[i].num, s.heap[i].data));
    PopGives(s, i, room, k.s, r);
  }

  lemma PrefixIn(a: seq<UploadPacket>, b: seq<UploadPacket>, p: UploadPacket)
    requires a <= b
    ensures p in a ==> p in b
  {
  }

  /** If not all of the promised items are taken, the stream has not ended, and the next item is one of them. */
  lemma NextInLead(lead: seq<UploadPacket>, h: Hist)
    requires Tracked(h) && lead <= h.arrived && Eof !in lead
    requires TakenOf(h.arrived, h.s.rx) <= lead && !(lead <= TakenOf(h.arrived, h.s.rx))
    ensures !h.s.eof && |h.s.rx| > 0 && h.s.rx[0] in lead
  {
    var taken := TakenOf(h.arrived, h.s.rx);
    PrefixIn(taken, lead, Eof);
    assert h.s.rx[0] == h.arrived[|taken|] == lead[|taken|];
  }

  lemma ReadGives(data: nat -> Bytes, n: nat, lead: seq<UploadPacket>, h: Hist, room: nat, r: Poll, k: Hist)
    requires Promised(data, n, lead, h) && !Out(data, n, lead, h)
    requires lead <= h.arrived && NoEmpty(lead) && Eof !in lead
    requires Mixed.PacketsFrom(data, h.arrived) && Step(h, Read(room, r), k) && room > 0
    ensures r.Ready? && |r.got| > 0
  {
    AbsorbPromised(data, n, lead, h);
    FinishGives(data, n, lead, h.(s := Absorb(h.s)), room, r, k);
  }

  ghost predicate AllPromised(data: nat -> Bytes, n: nat, lead: seq<UploadPacket>, hs: seq<Hist>) {
    forall h :: h in hs ==> Promised(data, n, lead, h) && Mixed.PacketsFrom(data, h.arrived)
  }

  /** What a run of such states has come to: everything promised is out, or each read with room has counted. */
  ghost predicate Counted(data: nat -> Bytes, n: nat, lead: seq<UploadPacket>, h: Hist, count: nat) {
    lead <= h.arrived && (Out(data, n, lead, h) || |h.got| >= count)
  }

  lemma StepCounted(data: nat -> Bytes, n: nat, lead: seq<UploadPacket>, h: Hist, a: Action, k: Hist, count: nat)
    requires Step(h, a, k) && NoEmpty(lead) && Eof !in lead && Counted(data, n, lead, h, count)
    ensures Promised(data, n, lead, h) && Promised(data, n, lead, k) && Mixed.PacketsFrom(data, h.arrived) ==>
              Counted(data, n, lead, k, count + if a.Read? && a.room > 0 then 1 else 0)
  {
    if Promised(data, n, lead, h) && Promised(data, n, lead, k) && Mixed.PacketsFrom(data, h.arrived) {
      StepPromised(data, n, lead, h, a, k);
      if a.Read? && a.room > 0 && !Out(data, n, lead, h) {
        ReadGives(data, n, lead, h, a.room, a.r, k);
      }
    }
  }

  lemma PromisedAt(data: nat -> Bytes, n: nat, lead: seq<UploadPacket>, hs: seq<Hist>, i: nat)
    requires AllPromised(data, n, lead, hs) && i < |hs|
    ensures Promised(data, n, lead, hs[i]) && Mixed.PacketsFrom(data, hs[i].arrived)
  {
    assert hs[i] in hs;
  }

  lemma {:induction false} ReadsCount(data: nat -> Bytes, n: nat, lead: seq<UploadPacket>, hs: seq<Hist>,
                                      acts: seq<Action>, m: nat)
    requires Steps(hs, acts) && m <= |acts| && lead <= hs[0].arrived && NoEmpty(lead) && Eof !in lead
    requires AllPromised(data, n, lead, hs)
    ensures Counted(data, n, lead, hs[m], RoomyReads(acts[..m]))
  {
    if m > 0 {
      ReadsCount(data, n, lead, hs, acts, m - 1);
      CountedNext(data, n, lead, hs, acts, m - 1);
    }
  }

  lemma CountedNext(data: nat -> Bytes, n: nat, lead: seq<UploadPacket>, hs: seq<Hist>, acts: seq<Action>, m: nat)
    requires Steps(hs, acts) && NoEmpty(lead) && Eof !in lead && AllPromised(data, n, lead, hs)
    requires m < |acts| && Counted(data, n, lead, hs[m], RoomyReads(acts[..m]))
    ensures Counted(data, n, lead, hs[m + 1], RoomyReads(acts[..m + 1]))
  {
    var h, a, k := hs[m], acts[m], hs[m + 1];
    assert Step(h, a, k);
    RoomyMore(acts, m);
    PromisedAt(data, n, lead, hs, m);
    PromisedAt(data, n, lead, hs, m + 1);
    StepCounted(data, n, lead, h, a, k, RoomyReads(acts[..m]));
  }

  lemma RoomyMore(acts: seq<Action>, m: nat)
    requires m < |acts|
    ensures RoomyReads(acts[..m + 1]) == RoomyReads(acts[..m]) + if acts[m].Read? && acts[m].room > 0 then 1 else 0
  {
    assert acts[..m + 1][..m] == acts[..m];
  }

  // ---- Enough reads ----

  lemma {:induction false} HeapBytes(heap: seq<Entry>, e: Entry)
    requires e in heap
    ensures |e.data| <= |Total(heap, EntryBytes)|
  {
    if heap[0] == e {
    } else {
      HeapBytes(heap[1..], e);
    }
  }

  /** The bytes of the items taken are delivered or in one of the three buffers. */
  lemma TakenBytes(h: Hist)
    requires Conserved(h) && Fifo(h.arrived, h.s.rx)
    ensures Size(TakenOf(h.arrived, h.s.rx))
         == |h.got| + |h.s.leftover| + |h.s.buffered| + |Total(h.s.heap, EntryBytes)|
  {
    var taken := TakenOf(h.arrived, h.s.rx);
    SizeIsTotal(h.arrived);
    SizeIsTotal(h.s.rx);
    SizeJoin(taken, h.s.rx);
    assert h.arrived == taken + h.s.rx;
  }

  /** A shorter prefix of non-empty items has fewer bytes. */
  lemma SizeGrows(a: seq<UploadPacket>, b: seq<UploadPacket>)
    requires a <= b && NoEmpty(b) && Eof !in b
    ensures Size(a) <= Size(b) && (Size(a) == Size(b) ==> a == b)
  {
    var rest := b[|a|..];
    assert b == a + rest;
    SizeJoin(a, rest);
    if |rest| > 0 {
      assert rest[0] in b;
    } else {
      assert a + rest == a;
    }
  }

  lemma HeapHasBytes(heap: seq<Entry>)
    requires |heap| > 0 && heap[0].data != []
    ensures |Total(heap, EntryBytes)| > 0
  {
    HeapBytes(heap, heap[0]);
  }

  /** With as many bytes delivered as the promised items have, they are all taken and nothing is buffered. */
  lemma AllTaken(lead: seq<UploadPacket>, h: Hist)
    requires Conserved(h) && Tracked(h) && TakenOf(h.arrived, h.s.rx) <= lead
    requires NoEmpty(lead) && Eof !in lead && |h.got| >= Size(lead)
    ensures TakenOf(h.arrived, h.s.rx) == lead
    ensures h.s.leftover == [] && h.s.buffered == [] && |h.s.heap| == 0
  {
    var taken := TakenOf(h.arrived, h.s.rx);
    TakenBytes(h);
    SizeGrows(taken, lead);
    if |h.s.heap| > 0 {
      HeldNotEmpty(lead, h);
      HeapHasBytes(h.s.heap);
      assert false;
    }
  }

  lemma HeldNotEmpty(lead: seq<UploadPacket>, h: Hist)
    requires Tracked(h) && TakenOf(h.arrived, h.s.rx) <= lead && NoEmpty(lead) && |h.s.heap| > 0
    ensures h.s.heap[0].data != []
  {
    var e := h.s.heap[0];
    PrefixIn(TakenOf(h.arrived, h.s.rx), lead, Packet(e.num, e.data));
  }

  lemma EnoughOut(data: nat -> Bytes, n: nat, lead: seq<UploadPacket>, h: Hist)
    requires Promised(data, n, lead, h) && lead <= h.arrived && NoEmpty(lead) && Eof !in lead && |h.got| >= Size(lead)
    ensures Out(data, n, lead, h)
  {
    if !Past(lead, h) {
      NotPast(lead, h);
      AllTaken(lead, h);
      IdleOut(data, n, lead, h);
    }
  }

  lemma PromisedFrom(data: nat -> Bytes, n: nat, lead: seq<UploadPacket>, hs: seq<Hist>, acts: seq<Action>, m: nat)
    requires Run(hs, acts) && m <= |acts| && Eof !in lead
    requires Mixed.PacketsFrom(data, hs[|acts|].arrived) && DistinctNums(hs[|acts|].arrived)
    requires forall k: nat :: k < n ==> Total(lead, PktNum)[k] >= 1
    ensures AllPromised(data, n, lead, hs[m..])
  {
    forall h | h in hs[m..]
      ensures Promised(data, n, lead, h) && Mixed.PacketsFrom(data, h.arrived)
    {
      var j :| 0 <= j < |hs[m..]| && hs[m..][j] == h;
      Earlier(data, hs, acts, m + j);
      RunPromised(data, n, lead, hs[..m + j + 1], acts[..m + j]);
    }
  }

  lemma StepsFrom(hs: seq<Hist>, acts: seq<Action>, m: nat)
    requires Steps(hs, acts) && m <= |acts|
    ensures Steps(hs[m..], acts[m..]) && hs[m..][|acts[m..]|] == hs[|acts|] && hs[m..][0] == hs[m]
  {
    forall i | 0 <= i < |acts[m..]|
      ensures Step(hs[m..][i], acts[m..][i], hs[m..][i + 1])
    {
      assert Step(hs[m + i], acts[m + i], hs[m + i + 1]);
    }
  }

  lemma AllOut(data: nat -> Bytes, n: nat, hs: seq<Hist>, acts: seq<Action>, m: nat)
    requires Run(hs, acts) && m <= |acts|
    requires Mixed.PacketsFrom(data, hs[|acts|].arrived) && DistinctNums(hs[|acts|].arrived)
    requires var lead := Lead(hs[m].arrived);
             && NoEmpty(lead) && (forall k: nat :: k < n ==> Total(lead, PktNum)[k] >= 1)
             && RoomyReads(acts[m..]) >= Size(lead)
    ensures Out(data, n, Lead(hs[m].arrived), hs[|acts|]) && Lead(hs[m].arrived) <= hs[|acts|].arrived
  {
    var lead, h := Lead(hs[m].arrived), hs[|acts|];
    PromisedFrom(data, n, lead, hs, acts, m);
    PromisedAt(data, n, lead, hs[m..], |acts| - m);
    StepsFrom(hs, acts, m);
    ReadsCount(data, n, lead, hs[m..], acts[m..], |acts| - m);
    assert acts[m..][..|acts| - m] == acts[m..];
    if !Out(data, n, lead, h) {
      EnoughOut(data, n, lead, h);
    }
  }

  /** Once distinct packets 0 .. n - 1 and any chunks have arrived ahead of any end of stream, all of them non-empty, as
      many reads with room as those items have bytes deliver them all, whatever else arrives, is read or is closed in
      between: the packets in order, the chunks in order, the two interleaved. */
  lemma AllItemsDelivered(data: nat -> Bytes, n: nat, hs: seq<Hist>, acts: seq<Action>, m: nat)
    returns (packets: Bytes, chunks: Bytes)
    requires Run(hs, acts) && m <= |acts|
    requires Mixed.PacketsFrom(data, hs[|acts|].arrived) && DistinctNums(hs[|acts|].arrived)
    requires var lead := Lead(hs[m].arrived);
             && NoEmpty(lead) && (forall k: nat :: k < n ==> Total(lead, PktNum)[k] >= 1)
             && RoomyReads(acts[m..]) >= Size(lead)
    ensures Mixed.Shuffle(packets, chunks, hs[|acts|].got)
    ensures Upto(data, n) <= packets && ChunkBytes(Lead(hs[m].arrived)) <= chunks
  {
    var lead, h := Lead(hs[m].arrived), hs[|acts|];
    AllOut(data, n, hs, acts, m);
    packets, chunks := Mixed.RunIsShuffle(data, hs, acts);
    if n <= h.s.next {
      UptoGrows(data, n, h.s.next);
    } else {
      UptoGrows(data, h.s.next, n);
    }
    Front(packets, h.s.leftover, Upto(data, h.s.next), Upto(data, n));
    ChunkBytesJoin(lead, h.arrived[|lead|..]);
    assert h.arrived == lead + h.arrived[|lead|..];
    Front(chunks, h.s.buffered + ChunkBytes(h.s.rx), ChunkBytes(h.arrived), ChunkBytes(lead));
  }

  lemma Front(a: Bytes, rest: Bytes, all: Bytes, wanted: Bytes)
    requires a + rest == all && (wanted <= all || all <= wanted) && |wanted| + |rest| <= |all|
    ensures wanted <= a
  {
  }

  /** A stream-up upload: as many reads with room as the chunks ahead of any end of stream have bytes deliver them. */
  lemma AllChunksDelivered(hs: seq<Hist>, acts: seq<Action>, m: nat)
    requires Run(hs, acts) && m <= |acts| && NoPackets(hs[|acts|].arrived)
    requires var lead := Lead(hs[m].arrived); NoEmpty(lead) && RoomyReads(acts[m..]) >= Size(lead)
    ensures ChunkBytes(Lead(hs[m].arrived)) <= hs[|acts|].got
  {
    var lead, h := Lead(hs[m].arrived), hs[|acts|];
    NoNumbers(h.arrived);
    AllOut(_ => [], 0, hs, acts, m);
    ChunksInOrder(hs, acts);
    ChunkBytesJoin(lead, h.arrived[|lead|..]);
    assert h.arrived == lead + h.arrived[|lead|..];
    Front(h.got, h.s.buffered + ChunkBytes(h.s.rx), ChunkBytes(h.arrived), ChunkBytes(lead));
  }

  lemma {:induction false} NoNumbers(ps: seq<UploadPacket>)
    requires NoPackets(ps)
    ensures Total(ps, PktNum) == multiset{} && DistinctNums(ps) && Mixed.PacketsFrom(_ => [], ps)
  {
    if |ps| == 0 {
    } else {
      assert ps[0] in ps && forall p :: p in ps[1..] ==> p in ps;
      NoNumbers(ps[1..]);
    }
  }
}
