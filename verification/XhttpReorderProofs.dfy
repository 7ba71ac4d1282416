/** What holds in every run of arrivals and reads of an XHTTP stream. */
module XhttpReorderProofs {
  import opened Bytes
  import opened XhttpReorder

  // ---- Runs ----

  datatype Action = Arrive(p: UploadPacket) | Close | Read(room: nat, r: Poll)

  /** A state together with everything that has arrived and everything that has been delivered. */
  datatype Hist = Hist(s: State, arrived: seq<UploadPacket>, got: Bytes)

  ghost predicate Step(h: Hist, a: Action, k: Hist) {
    match a
    case Arrive(p) => h.s.open && k == Hist(h.s.(rx := h.s.rx + [p]), h.arrived + [p], h.got)
    case Close => k == h.(s := h.s.(open := false))
    case Read(room, r) =>
      PollStep(h.s, room, k.s, r) && k.arrived == h.arrived && k.got == h.got + if r.Ready? then r.got else []
  }

  ghost predicate Steps(hs: seq<Hist>, acts: seq<Action>) {
    |hs| == |acts| + 1 && forall i :: 0 <= i < |acts| ==> Step(hs[i], acts[i], hs[i + 1])
  }

  ghost predicate Run(hs: seq<Hist>, acts: seq<Action>) {
    Steps(hs, acts) && hs[0] == Hist(FRESH, [], [])
  }

  // ---- Totals over bags ----

  ghost function Total<X, T>(xs: seq<X>, f: X -> multiset<T>): multiset<T> {
    if |xs| == 0 then multiset{} else f(xs[0]) + Total(xs[1..], f)
  }

  lemma {:induction false} TotalJoin<X, T>(a: seq<X>, b: seq<X>, f: X -> multiset<T>)
    ensures Total(a + b, f) == Total(a, f) + Total(b, f)
  {
    if |a| == 0 {
      assert a + b == b;
    } else {
      TotalJoin(a[1..], b, f);
      assert (a + b)[1..] == a[1..] + b;
    }
  }

  lemma TotalOne<X, T>(x: X, f: X -> multiset<T>)
    ensures Total([x], f) == f(x)
  {
    assert Total([x], f) == f(x) + Total([], f);
  }

  lemma TotalWithout<T>(heap: seq<Entry>, i: nat, f: Entry -> multiset<T>)
    requires i < |heap|
    ensures Total(heap, f) == Total(Without(heap, i), f) + f(heap[i])
  {
    var a, b := heap[..i], heap[i + 1..];
    assert heap == a + heap[i..] && heap[i..][1..] == b;
    TotalJoin(a, heap[i..], f);
    assert Total(heap[i..], f) == f(heap[i]) + Total(b, f);
    TotalJoin(a, b, f);
  }

  function EntryBytes(e: Entry): multiset<byte> { multiset(e.data) }
  function EntryNum(e: Entry): multiset<nat> { multiset{e.num} }
  function PktBytes(p: UploadPacket): multiset<byte> { if p.Eof? then multiset{} else multiset(p.data) }
  function PktNum(p: UploadPacket): multiset<nat> { if p.Packet? then multiset{p.num} else multiset{} }

  /** Each number below `n` once. */
  ghost function Below(n: nat): (m: multiset<nat>)
    ensures forall k: nat :: m[k] == if k < n then 1 else 0
  {
    if n == 0 then multiset{} else Below(n - 1) + multiset{n - 1}
  }

  // ---- Conservation of bytes and of packet numbers ----

  ghost function HeldBytes(s: State): multiset<byte> {
    multiset(s.leftover) + multiset(s.buffered) + Total(s.heap, EntryBytes) + Total(s.rx, PktBytes)
  }

  ghost function KnownNums(s: State): multiset<nat> {
    Below(s.next) + Total(s.heap, EntryNum) + Total(s.rx, PktNum)
  }

  lemma MoveKeeps(s: State, e: Entry)
    requires |s.rx| > 0 && s.rx[0] == Packet(e.num, e.data)
    ensures var t := s.(rx := s.rx[1..], heap := s.heap + [e]);
            HeldBytes(t) == HeldBytes(s) && KnownNums(t) == KnownNums(s)
  {
    TotalSnoc(s.heap, e, EntryBytes);
    TotalSnoc(s.heap, e, EntryNum);
  }

  lemma {:induction false} AbsorbKeeps(s: State)
    ensures HeldBytes(Absorb(s)) == HeldBytes(s) && KnownNums(Absorb(s)) == KnownNums(s)
    decreases |s.rx|
  {
    if Idle(s) && |s.rx| > 0 && s.rx[0].Packet? {
      var e := Entry(s.rx[0].num, s.rx[0].data);
      var t := s.(rx := s.rx[1..], heap := s.heap + [e]);
      MoveKeeps(s, e);
      AbsorbKeeps(t);
    }
  }

  lemma SplitBytes(b: Bytes, n: nat)
    requires n <= |b|
    ensures multiset(b) == multiset(b[..n]) + multiset(b[n..])
  {
    assert b == b[..n] + b[n..];
  }

  lemma FinishKeeps(s: State, room: nat, t: State, r: Poll)
    requires Finish(s, room, t, r)
    requires Idle(s) ==> s.rx == [] || !s.rx[0].Packet?
    ensures HeldBytes(s) == HeldBytes(t) + if r.Ready? then multiset(r.got) else multiset{}
    ensures KnownNums(s) == KnownNums(t)
  {
    if s.leftover != [] || s.buffered != [] {
      BufferKeeps(s, room, t, r);
    } else if TopIs(s.heap, s.next) {
      var i :| 0 <= i < |s.heap| && IsTop(s.heap, i) && Pops(s, i, room, t, r);
      PopKeeps(s, i, room, t, r);
    } else if !s.eof && |s.rx| > 0 {
      PacketKeeps(s, room, t, r);
    }
  }

  lemma BufferKeeps(s: State, room: nat, t: State, r: Poll)
    requires Finish(s, room, t, r) && (s.leftover != [] || s.buffered != [])
    ensures HeldBytes(s) == HeldBytes(t) + multiset(r.got)
  {
    var b := if s.leftover != [] then s.leftover else s.buffered;
    SplitBytes(b, Min(|b|, room));
  }

  lemma PacketKeeps(s: State, room: nat, t: State, r: Poll)
    requires Finish(s, room, t, r) && Idle(s) && |s.rx| > 0 && !s.rx[0].Packet?
    ensures HeldBytes(s) == HeldBytes(t) + multiset(r.got) && KnownNums(s) == KnownNums(t)
  {
    assert Total(s.rx, PktNum) == PktNum(s.rx[0]) + Total(s.rx[1..], PktNum);
    PacketBytes(s, room, t, r);
  }

  lemma PacketBytes(s: State, room: nat, t: State, r: Poll)
    requires Finish(s, room, t, r) && Idle(s) && |s.rx| > 0 && !s.rx[0].Packet?
    ensures HeldBytes(s) == HeldBytes(t) + multiset(r.got)
  {
    FirstItem(s.rx, if s.rx[0].Chunk? then Min(|s.rx[0].data|, room) else 0);
    if s.rx[0].Chunk? {
      ChunkLeaves(s, t, r, Min(|s.rx[0].data|, room));
    }
  }

  lemma ChunkLeaves(s: State, t: State, r: Poll, n: nat)
    requires |s.rx| > 0 && s.rx[0].Chunk? && n <= |s.rx[0].data| && s.leftover == [] && s.buffered == []
    requires t == s.(rx := s.rx[1..], buffered := s.rx[0].data[n..]) && r == Ready(s.rx[0].data[..n])
    ensures HeldBytes(s) == HeldBytes(t) + multiset(r.got)
  {
    FirstItem(s.rx, n);
  }

  /** The bytes of the first item, split where a read splits them. */
  lemma FirstItem(rx: seq<UploadPacket>, n: nat)
    requires |rx| > 0 && (rx[0].Chunk? ==> n <= |rx[0].data|)
    ensures rx[0].Chunk? ==>
              Total(rx, PktBytes) == multiset(rx[0].data[..n]) + multiset(rx[0].data[n..]) + Total(rx[1..], PktBytes)
    ensures rx[0].Eof? ==> Total(rx, PktBytes) == Total(rx[1..], PktBytes)
  {
    assert Total(rx, PktBytes) == PktBytes(rx[0]) + Total(rx[1..], PktBytes);
    if rx[0].Chunk? {
      SplitBytes(rx[0].data, n);
    }
  }

  lemma PopKeeps(s: State, i: nat, room: nat, t: State, r: Poll)
    requires i < |s.heap| && IsTop(s.heap, i) && Pops(s, i, room, t, r) && TopIs(s.heap, s.next) && s.leftover == []
    ensures HeldBytes(s) == HeldBytes(t) + multiset(r.got)
    ensures KnownNums(s) == KnownNums(t)
  {
    PopKeepsNums(s.heap, i, s.next);
    PopKeepsBytes(s.heap, i, Min(|s.heap[i].data|, room));
  }

  lemma PopKeepsNums(heap: seq<Entry>, i: nat, next: nat)
    requires i < |heap| && IsTop(heap, i) && TopIs(heap, next)
    ensures Below(next) + Total(heap, EntryNum) == Below(next + 1) + Total(Without(heap, i), EntryNum)
  {
    TopDecides(heap, i, next);
    TotalWithout(heap, i, EntryNum);
    Regroup(Below(next), Total(Without(heap, i), EntryNum), multiset{next});
  }

  lemma PopKeepsBytes(heap: seq<Entry>, i: nat, n: nat)
    requires i < |heap| && n <= |heap[i].data|
    ensures Total(heap, EntryBytes)
         == multiset(heap[i].data[n..]) + Total(Without(heap, i), EntryBytes) + multiset(heap[i].data[..n])
  {
    TotalWithout(heap, i, EntryBytes);
    SplitBytes(heap[i].data, n);
  }

  /** Bytes received are bytes delivered plus bytes held, and packet numbers received are popped, held or queued. */
  ghost predicate Conserved(h: Hist) {
    && Total(h.arrived, PktBytes) == multiset(h.got) + HeldBytes(h.s)
    && Total(h.arrived, PktNum) == KnownNums(h.s)
  }

  lemma StepConserves(h: Hist, a: Action, k: Hist)
    requires Conserved(h) && Step(h, a, k)
    ensures Conserved(k)
  {
    match a
    case Arrive(p) =>
      TotalSnoc(h.arrived, p, PktBytes);
      TotalSnoc(h.arrived, p, PktNum);
      ArriveKeeps(h.s, p);
      assert Total(k.arrived, PktBytes) == multiset(k.got) + HeldBytes(k.s);
    case Close =>
    case Read(room, r) => ReadConserves(h, room, r, k);
  }

  lemma ReadConserves(h: Hist, room: nat, r: Poll, k: Hist)
    requires Conserved(h) && Step(h, Read(room, r), k)
    ensures Conserved(k)
  {
    AbsorbKeeps(h.s);
    FinishKeeps(Absorb(h.s), room, k.s, r);
    var more: Bytes := if r.Ready? then r.got else [];
    MoreRead(Total(h.arrived, PktBytes), h.got, HeldBytes(h.s), more, HeldBytes(k.s));
  }

  lemma MoreRead(all: multiset<byte>, got: Bytes, held: multiset<byte>, more: Bytes, left: multiset<byte>)
    requires all == multiset(got) + held && held == left + multiset(more)
    ensures all == multiset(got + more) + left
  {
    assert multiset(got + more) == multiset(got) + multiset(more);
    Regroup(multiset(got), left, multiset(more));
  }

  lemma Regroup<T>(a: multiset<T>, b: multiset<T>, c: multiset<T>)
    ensures a + (b + c) == a + c + b
  {
  }

  lemma TotalSnoc<X, T>(xs: seq<X>, x: X, f: X -> multiset<T>)
    ensures Total(xs + [x], f) == Total(xs, f) + f(x)
  {
    TotalJoin(xs, [x], f);
    TotalOne(x, f);
  }

  lemma ArriveKeeps(s: State, p: UploadPacket)
    ensures var t := s.(rx := s.rx + [p]);
            HeldBytes(t) == HeldBytes(s) + PktBytes(p) && KnownNums(t) == KnownNums(s) + PktNum(p)
  {
    TotalSnoc(s.rx, p, PktBytes);
    TotalSnoc(s.rx, p, PktNum);
  }

  /** Once end of stream has been reported both buffers are empty and the next packet is not at the top of the heap. */
  ghost predicate EofSettled(s: State) {
    s.eof ==> s.leftover == [] && s.buffered == [] && !TopIs(s.heap, s.next)
  }

  lemma {:induction false} AbsorbSettled(s: State)
    requires EofSettled(s)
    ensures EofSettled(Absorb(s)) && (s.eof ==> Absorb(s) == s)
    decreases |s.rx|
  {
    if Idle(s) && |s.rx| > 0 && s.rx[0].Packet? {
      AbsorbSettled(s.(rx := s.rx[1..], heap := s.heap + [Entry(s.rx[0].num, s.rx[0].data)]));
    }
  }

  lemma StepSettles(h: Hist, a: Action, k: Hist)
    requires EofSettled(h.s) && Step(h, a, k)
    ensures EofSettled(k.s)
  {
    AbsorbSettled(h.s);
  }

  lemma StartConserves()
    ensures Conserved(Hist(FRESH, [], [])) && EofSettled(FRESH)
  {
    var none: Bytes := [];
    assert multiset(none) == multiset{};
    assert Below(0) == multiset{};
  }

  lemma {:induction false} EndConserves(hs: seq<Hist>, acts: seq<Action>)
    requires Run(hs, acts)
    ensures Conserved(hs[|acts|]) && EofSettled(hs[|acts|].s)
    decreases |acts|
  {
    if |acts| == 0 {
      StartConserves();
    } else {
      var n := |acts| - 1;
      EndConserves(hs[..n + 1], acts[..n]);
      assert Step(hs[n], acts[n], hs[n + 1]);
      StepConserves(hs[n], acts[n], hs[n + 1]);
      StepSettles(hs[n], acts[n], hs[n + 1]);
    }
  }

  /** In every run, for any mix of chunks and packets, nothing is lost or made up. */
  lemma RunConserves(hs: seq<Hist>, acts: seq<Action>)
    requires Run(hs, acts)
    ensures forall i :: 0 <= i < |hs| ==> Conserved(hs[i]) && EofSettled(hs[i].s)
  {
    forall i | 0 <= i < |hs|
      ensures Conserved(hs[i]) && EofSettled(hs[i].s)
    {
      EndConserves(hs[..i + 1], acts[..i]);
    }
  }

  /** After end of stream no poll delivers anything or changes anything. */
  lemma EofIsFinal(s: State, room: nat, t: State, r: Poll)
    requires EofSettled(s) && s.eof && PollStep(s, room, t, r)
    ensures t == s && r == Ready([])
  {
    AbsorbSettled(s);
  }

  // ---- Order ----

  /** The contents of packets 0, 1, .., `n - 1`. */
  function Upto(data: nat -> Bytes, n: nat): Bytes {
    if n == 0 then [] else Upto(data, n - 1) + data(n - 1)
  }

  /** Only packets arrive, and a packet's contents are those of its number. */
  ghost predicate FromPackets(data: nat -> Bytes, arrived: seq<UploadPacket>) {
    forall p :: p in arrived ==> !p.Chunk? && (p.Packet? ==> p.data == data(p.num))
  }

  ghost predicate HeapFrom(data: nat -> Bytes, heap: seq<Entry>) {
    forall e :: e in heap ==> e.data == data(e.num)
  }

  ghost predicate InOrder(data: nat -> Bytes, s: State, got: Bytes) {
    && FromPackets(data, s.rx) && HeapFrom(data, s.heap) && s.buffered == []
    && got + s.leftover == Upto(data, s.next)
  }

  lemma {:induction false} AbsorbInOrder(data: nat -> Bytes, s: State, got: Bytes)
    requires InOrder(data, s, got)
    ensures InOrder(data, Absorb(s), got)
    decreases |s.rx|
  {
    if Idle(s) && |s.rx| > 0 && s.rx[0].Packet? {
      assert s.rx[0] in s.rx;
      AbsorbInOrder(data, s.(rx := s.rx[1..], heap := s.heap + [Entry(s.rx[0].num, s.rx[0].data)]), got);
    }
  }

  lemma TakeInOrder(got: Bytes, b: Bytes, n: nat)
    requires n <= |b|
    ensures got + b[..n] + b[n..] == got + b
  {
    assert b == b[..n] + b[n..];
    Assoc(got, b[..n], b[n..]);
  }

  lemma FinishInOrder(data: nat -> Bytes, s: State, got: Bytes, room: nat, t: State, r: Poll)
    requires InOrder(data, s, got) && Finish(s, room, t, r)
    ensures InOrder(data, t, got + if r.Ready? then r.got else [])
  {
    assert got + [] == got;
    if s.leftover != [] {
      TakeInOrder(got, s.leftover, Min(|s.leftover|, room));
    } else if TopIs(s.heap, s.next) {
      var i :| 0 <= i < |s.heap| && IsTop(s.heap, i) && Pops(s, i, room, t, r);
      PopInOrder(data, s, got, i, room, t, r);
    } else if !s.eof && |s.rx| > 0 {
      assert s.rx[0] in s.rx;
    }
  }

  lemma PopInOrder(data: nat -> Bytes, s: State, got: Bytes, i: nat, room: nat, t: State, r: Poll)
    requires InOrder(data, s, got) && s.leftover == [] && TopIs(s.heap, s.next)
    requires i < |s.heap| && IsTop(s.heap, i) && Pops(s, i, room, t, r)
    ensures InOrder(data, t, got + r.got)
  {
    TopDecides(s.heap, i, s.next);
    assert s.heap[i] in s.heap;
    assert got + [] == got;
    TakeInOrder(got, s.heap[i].data, Min(|s.heap[i].data|, room));
  }

  /** Whatever the order of arrival and the buffer sizes: delivered and leftover bytes are packets 0 .. next - 1. */
  lemma {:induction false} RunInOrder(data: nat -> Bytes, hs: seq<Hist>, acts: seq<Action>)
    requires Run(hs, acts) && FromPackets(data, hs[|acts|].arrived)
    ensures InOrder(data, hs[|acts|].s, hs[|acts|].got)
  {
    if |acts| == 0 {
    } else {
      var n := |acts| - 1;
      var h, k := hs[n], hs[n + 1];
      assert Step(h, acts[n], k);
      assert forall p :: p in h.arrived ==> p in k.arrived;
      RunInOrder(data, hs[..n + 1], acts[..n]);
      match acts[n]
      case Arrive(p) => assert p in k.arrived;
      case Close =>
      case Read(room, r) =>
        AbsorbInOrder(data, h.s, h.got);
        FinishInOrder(data, Absorb(h.s), h.got, room, k.s, r);
    }
  }

  // ---- Streams of chunks ----

  /** The bytes of the chunks, in order. */
  function ChunkBytes(ps: seq<UploadPacket>): Bytes {
    if |ps| == 0 then [] else (if ps[0].Chunk? then ps[0].data else []) + ChunkBytes(ps[1..])
  }

  lemma {:induction false} ChunkBytesSnoc(ps: seq<UploadPacket>, p: UploadPacket)
    ensures ChunkBytes(ps + [p]) == ChunkBytes(ps) + if p.Chunk? then p.data else []
  {
    if |ps| == 0 {
      assert ps + [p] == [p] && [p][1..] == [];
      var b := if p.Chunk? then p.data else [];
      assert ChunkBytes([p]) == b + ChunkBytes([]) && b + [] == b == [] + b;
    } else {
      ChunkBytesSnoc(ps[1..], p);
      assert (ps + [p])[1..] == ps[1..] + [p];
      Assoc(if ps[0].Chunk? then ps[0].data else [], ChunkBytes(ps[1..]), if p.Chunk? then p.data else []);
    }
  }

  ghost predicate NoPackets(ps: seq<UploadPacket>) {
    forall p :: p in ps ==> !p.Packet?
  }

  ghost predicate InSequence(h: Hist) {
    && h.s.heap == [] && h.s.leftover == [] && NoPackets(h.s.rx)
    && h.got + (h.s.buffered + ChunkBytes(h.s.rx)) == ChunkBytes(h.arrived)
  }

  lemma ReadInSequence(h: Hist, room: nat, r: Poll, k: Hist)
    requires InSequence(h) && Step(h, Read(room, r), k)
    ensures InSequence(k)
  {
    var s := h.s;
    if |s.rx| > 0 {
      assert s.rx[0] in s.rx;
    }
    assert Absorb(s) == s && h.got + [] == h.got;
    if s.buffered != [] {
      FromFront(h.got, s.buffered, Min(|s.buffered|, room), ChunkBytes(s.rx));
    } else if !s.eof && |s.rx| > 0 && s.rx[0].Chunk? {
      FromFront(h.got, s.rx[0].data, Min(|s.rx[0].data|, room), ChunkBytes(s.rx[1..]));
      assert [] + ChunkBytes(s.rx) == ChunkBytes(s.rx);
    } else if !s.eof && |s.rx| > 0 {
      assert [] + ChunkBytes(s.rx[1..]) == ChunkBytes(s.rx[1..]);
    }
  }

  lemma FromFront(got: Bytes, b: Bytes, n: nat, more: Bytes)
    requires n <= |b|
    ensures got + b[..n] + (b[n..] + more) == got + (b + more)
  {
    assert b == b[..n] + b[n..];
    Assoc(b[..n], b[n..], more);
    Assoc(got, b[..n], b[n..] + more);
  }

  /** A stream-up or stream-one upload: bytes come out in the order in which they were posted, whatever the
      buffer sizes. */
  lemma {:induction false} ChunksInOrder(hs: seq<Hist>, acts: seq<Action>)
    requires Run(hs, acts) && NoPackets(hs[|acts|].arrived)
    ensures InSequence(hs[|acts|])
  {
    if |acts| == 0 {
    } else {
      var n := |acts| - 1;
      var h, k := hs[n], hs[n + 1];
      assert Step(h, acts[n], k);
      assert forall p :: p in h.arrived ==> p in k.arrived;
      ChunksInOrder(hs[..n + 1], acts[..n]);
      match acts[n]
      case Arrive(p) => ArriveInSequence(h, p, k);
      case Close =>
      case Read(room, r) => ReadInSequence(h, room, r, k);
    }
  }

  lemma ArriveInSequence(h: Hist, p: UploadPacket, k: Hist)
    requires InSequence(h) && Step(h, Arrive(p), k) && NoPackets(k.arrived)
    ensures InSequence(k)
  {
    assert p in k.arrived;
    ChunkBytesSnoc(h.s.rx, p);
    ChunkBytesSnoc(h.arrived, p);
    var more := if p.Chunk? then p.data else [];
    Assoc(h.s.buffered, ChunkBytes(h.s.rx), more);
    Assoc(h.got, h.s.buffered + ChunkBytes(h.s.rx), more);
  }
}
