/** How far the reordering stream gets: repeated numbers, the end of the stream, and what a reader is sure to be
    given. */
module XhttpReorderLimits {
  import opened Bytes
  import opened XhttpReorder
  import opened XhttpReorderProofs

  // ---- Stale packets ----

  ghost predicate DistinctNums(arrived: seq<UploadPacket>) {
    forall k: nat :: Total(arrived, PktNum)[k] <= 1
  }

  predicate Stale(s: State) {
    exists e :: e in s.heap && e.num < s.next
  }

  lemma {:induction false} HeapCounts(heap: seq<Entry>, k: nat)
    ensures Total(heap, EntryNum)[k] > 0 <==> exists e :: e in heap && e.num == k
  {
    if |heap| == 0 {
    } else {
      HeapCounts(heap[1..], k);
      assert heap[0] in heap;
      assert forall e :: e in heap <==> e == heap[0] || e in heap[1..];
    }
  }

  /** If packet numbers are pairwise distinct, no entry of the heap is ever behind the stream. */
  lemma DistinctNeverStale(hs: seq<Hist>, acts: seq<Action>)
    requires Run(hs, acts) && DistinctNums(hs[|acts|].arrived)
    ensures forall e :: e in hs[|acts|].s.heap ==> e.num >= hs[|acts|].s.next
  {
    var h := hs[|acts|];
    RunConserves(hs, acts);
    forall e | e in h.s.heap
      ensures e.num >= h.s.next
    {
      HeapCounts(h.s.heap, e.num);
      assert KnownNums(h.s)[e.num] <= 1;
    }
  }

  lemma StaleBlocksTop(s: State)
    requires Stale(s)
    ensures !TopIs(s.heap, s.next)
  {
  }

  lemma {:induction false} AbsorbStale(s: State)
    requires Stale(s)
    ensures Stale(Absorb(s))
    decreases |s.rx|
  {
    if Idle(s) && |s.rx| > 0 && s.rx[0].Packet? {
      var t := s.(rx := s.rx[1..], heap := s.heap + [Entry(s.rx[0].num, s.rx[0].data)]);
      var e :| e in s.heap && e.num < s.next;
      assert e in t.heap;
      AbsorbStale(t);
    }
  }

  lemma StaleStays(h: Hist, a: Action, k: Hist)
    requires Stale(h.s) && Step(h, a, k)
    ensures Stale(k.s) && k.s.next == h.s.next
  {
    if a.Read? {
      AbsorbStale(h.s);
      StaleBlocksTop(Absorb(h.s));
    }
  }

  /** A stale entry stays at the top for ever: whatever arrives and however often the stream is read, nothing is
      popped. */
  lemma {:induction false} StaleIsForever(hs: seq<Hist>, acts: seq<Action>)
    requires Steps(hs, acts) && Stale(hs[0].s)
    ensures Stale(hs[|acts|].s) && hs[|acts|].s.next == hs[0].s.next
    decreases |acts|
  {
    if |acts| == 0 {
    } else {
      var n := |acts| - 1;
      StaleIsForever(hs[..n + 1], acts[..n]);
      assert Step(hs[n], acts[n], hs[n + 1]);
      StaleStays(hs[n], acts[n], hs[n + 1]);
    }
  }

  /** Exactly when a reader with empty buffers gets the packet it waits for out of the heap. */
  lemma NextIsPoppedIff(s: State, room: nat, t: State, r: Poll)
    requires PollStep(s, room, t, r) && s.leftover == [] && s.buffered == []
    requires exists e :: e in s.heap && e.num == s.next
    ensures t.next == s.next + 1 <==> !Stale(s)
  {
    if Stale(s) {
      AbsorbStale(s);
      StaleBlocksTop(Absorb(s));
    } else {
      NotStaleTop(s);
    }
  }

  lemma NotStaleTop(s: State)
    requires !Stale(s) && exists e :: e in s.heap && e.num == s.next
    ensures TopIs(s.heap, s.next)
  {
    var e :| e in s.heap && e.num == s.next;
    var i :| 0 <= i < |s.heap| && s.heap[i] == e;
    forall j | 0 <= j < |s.heap|
      ensures s.heap[i].num <= s.heap[j].num
    {
      assert s.heap[j] in s.heap;
    }
    assert IsTop(s.heap, i);
  }

  // ---- Repeated numbers ----

  /** How many packets with that number have been taken off the channel so far. */
  ghost function Taken(h: Hist, num: nat): int {
    Total(h.arrived, PktNum)[num] as int - Total(h.s.rx, PktNum)[num] as int
  }

  /** A number below the awaited one has been received twice. */
  ghost predicate Repeated(h: Hist) {
    exists k: nat :: k < h.s.next && Taken(h, k) >= 2
  }

  predicate Held(s: State, num: nat) {
    exists e :: e in s.heap && e.num == num
  }

  lemma TakenIs(h: Hist, num: nat)
    requires Conserved(h)
    ensures Taken(h, num) == Total(h.s.heap, EntryNum)[num] + if num < h.s.next then 1 else 0
    ensures Total(h.s.heap, EntryNum)[num] > 0 <==> Held(h.s, num)
  {
    HeapCounts(h.s.heap, num);
    assert Total(h.arrived, PktNum)[num] == KnownNums(h.s)[num];
  }

  /** The heap has been spoilt exactly when some number already delivered was received twice. */
  lemma StaleIffRepeated(h: Hist)
    requires Conserved(h)
    ensures Stale(h.s) <==> Repeated(h)
  {
    if Stale(h.s) {
      var e :| e in h.s.heap && e.num < h.s.next;
      TakenIs(h, e.num);
    }
    if Repeated(h) {
      var k: nat :| k < h.s.next && Taken(h, k) >= 2;
      TakenIs(h, k);
    }
  }

  /** At the end of the stream the awaited packet is still held exactly when it was received
      and some number already delivered was received twice. */
  lemma EofHoldsNextIff(hs: seq<Hist>, acts: seq<Action>)
    requires Run(hs, acts) && hs[|acts|].s.eof
    ensures var h := hs[|acts|]; Held(h.s, h.s.next) <==> Taken(h, h.s.next) >= 1 && Repeated(h)
    ensures var h := hs[|acts|]; DistinctNums(h.arrived) ==> forall e :: e in h.s.heap ==> e.num > h.s.next
  {
    var h := hs[|acts|];
    RunConserves(hs, acts);
    StaleIffRepeated(h);
    TakenIs(h, h.s.next);
    if Held(h.s, h.s.next) && !Stale(h.s) {
      NotStaleTop(h.s);
    }
    if DistinctNums(h.arrived) {
      DistinctNeverStale(hs, acts);
    }
  }

  /** The input on which it fails: packets 0, 0, 1 and the end of stream, and two reads. Packet 1 is never delivered. */
  lemma EofLosesPacket(a: Bytes, b: Bytes) returns (hs: seq<Hist>, acts: seq<Action>)
    ensures Run(hs, acts) && hs[|acts|].arrived == [Packet(0, a), Packet(0, a), Packet(1, b), Eof]
    ensures hs[|acts|].got == a && hs[|acts|].s.eof && hs[|acts|].s.next == 1 && Held(hs[|acts|].s, 1)
  {
    var p, q := Packet(0, a), Packet(1, b);
    var s4 := State([p, p, q, Eof], true, [], 0, [], [], false);
    var s5 := State([p, q, Eof], true, [], 1, [], [], false);
    var s6 := State([], true, [Entry(0, a), Entry(1, b)], 1, [], [], true);
    var all := [p, p, q, Eof];
    FirstRead(a, b, s4, s5);
    SecondRead(a, b, s5, s6);
    hs, acts := [Hist(FRESH, [], [])], [];
    hs, acts := Extend(hs, acts, Arrive(p), Hist(FRESH.(rx := [p]), [p], []));
    hs, acts := Extend(hs, acts, Arrive(p), Hist(FRESH.(rx := [p, p]), [p, p], []));
    hs, acts := Extend(hs, acts, Arrive(q), Hist(FRESH.(rx := [p, p, q]), [p, p, q], []));
    hs, acts := Extend(hs, acts, Arrive(Eof), Hist(s4, all, []));
    hs, acts := Extend(hs, acts, Read(|a|, Ready(a)), Hist(s5, all, a));
    hs, acts := Extend(hs, acts, Read(1, Ready([])), Hist(s6, all, a));
    assert s6.heap[1] == Entry(1, b);
  }

  lemma Extend(hs: seq<Hist>, acts: seq<Action>, a: Action, k: Hist) returns (ks: seq<Hist>, bs: seq<Action>)
    requires Run(hs, acts) && Step(hs[|acts|], a, k)
    ensures Run(ks, bs) && |bs| == |acts| + 1 && ks[|bs|] == k
  {
    ks, bs := hs + [k], acts + [a];
  }

  lemma FirstRead(a: Bytes, b: Bytes, s: State, t: State)
    requires s == State([Packet(0, a), Packet(0, a), Packet(1, b), Eof], true, [], 0, [], [], false)
    requires t == State([Packet(0, a), Packet(1, b), Eof], true, [], 1, [], [], false)
    ensures PollStep(s, |a|, t, Ready(a))
  {
    var m := s.(rx := s.rx[1..], heap := [Entry(0, a)]);
    Moves(s, m, Entry(0, a));
    assert IsTop(m.heap, 0) && m.heap[0].num == 0;
    assert TopIs(m.heap, 0) && !Idle(m);
    assert Pops(m, 0, |a|, t, Ready(a));
  }

  lemma SecondRead(a: Bytes, b: Bytes, s: State, t: State)
    requires s == State([Packet(0, a), Packet(1, b), Eof], true, [], 1, [], [], false)
    requires t == State([], true, [Entry(0, a), Entry(1, b)], 1, [], [], true)
    ensures PollStep(s, 1, t, Ready([]))
  {
    var m := s.(rx := s.rx[1..], heap := [Entry(0, a)]);
    var w := m.(rx := m.rx[1..], heap := [Entry(0, a), Entry(1, b)]);
    Moves(s, m, Entry(0, a));
    BehindFirst(m, Entry(0, a));
    Moves(m, w, Entry(1, b));
    BehindFirst(w, Entry(0, a));
    assert Absorb(w) == w;
  }

  lemma BehindFirst(s: State, e: Entry)
    requires |s.heap| > 0 && s.heap[0] == e && e.num < s.next
    ensures !TopIs(s.heap, s.next)
  {
    assert s.heap[0] in s.heap;
    StaleBlocksTop(s);
  }

  lemma Moves(s: State, t: State, e: Entry)
    requires Idle(s) && |s.rx| > 0 && s.rx[0] == Packet(e.num, e.data)
    requires t == s.(rx := s.rx[1..], heap := s.heap + [e])
    ensures Absorb(s) == Absorb(t)
  {
  }

  // ---- The channel is first in, first out ----

  /** What is still in the channel is what arrived last. */
  ghost predicate Fifo(arrived: seq<UploadPacket>, rx: seq<UploadPacket>) {
    |rx| <= |arrived| && arrived[|arrived| - |rx|..] == rx
  }

  lemma {:induction false} AbsorbFifo(arrived: seq<UploadPacket>, s: State)
    requires Fifo(arrived, s.rx)
    ensures Fifo(arrived, Absorb(s).rx)
    decreases |s.rx|
  {
    if Idle(s) && |s.rx| > 0 && s.rx[0].Packet? {
      AbsorbFifo(arrived, s.(rx := s.rx[1..], heap := s.heap + [Entry(s.rx[0].num, s.rx[0].data)]));
    }
  }

  lemma {:induction false} RunFifo(hs: seq<Hist>, acts: seq<Action>)
    requires Run(hs, acts)
    ensures Fifo(hs[|acts|].arrived, hs[|acts|].s.rx)
    decreases |acts|
  {
    if |acts| == 0 {
    } else {
      var n := |acts| - 1;
      RunFifo(hs[..n + 1], acts[..n]);
      assert Step(hs[n], acts[n], hs[n + 1]);
      StepFifo(hs[n], acts[n], hs[n + 1]);
    }
  }

  lemma StepFifo(h: Hist, a: Action, k: Hist)
    requires Fifo(h.arrived, h.s.rx) && Step(h, a, k)
    ensures Fifo(k.arrived, k.s.rx)
  {
    match a
    case Arrive(p) =>
    case Close =>
    case Read(room, r) =>
      AbsorbFifo(h.arrived, h.s);
      FinishTakes(Absorb(h.s), room, k.s, r);
  }

  /** A pass that returns takes at most one item, and the awaited packet only off the top of the heap. */
  lemma FinishTakes(s: State, room: nat, t: State, r: Poll)
    requires Finish(s, room, t, r)
    ensures t.rx == s.rx || (|s.rx| > 0 && t.rx == s.rx[1..])
    ensures t.next == s.next || (t.next == s.next + 1 && TopIs(s.heap, s.next))
  {
  }

  lemma StepAdvances(h: Hist, a: Action, k: Hist)
    requires Step(h, a, k)
    ensures k.s.next == h.s.next || (k.s.next == h.s.next + 1 && TopIs(Absorb(h.s).heap, h.s.next))
  {
    if a.Read? {
      FinishTakes(Absorb(h.s), a.room, k.s, a.r);
    }
  }

  /** What has been taken off the channel, in order. */
  function TakenOf(arrived: seq<UploadPacket>, rx: seq<UploadPacket>): seq<UploadPacket>
    requires |rx| <= |arrived|
  {
    arrived[..|arrived| - |rx|]
  }

  lemma FifoCounts(arrived: seq<UploadPacket>, rx: seq<UploadPacket>, num: nat)
    requires Fifo(arrived, rx)
    ensures Total(arrived, PktNum)[num] == Total(TakenOf(arrived, rx), PktNum)[num] + Total(rx, PktNum)[num]
  {
    var taken := TakenOf(arrived, rx);
    TotalJoin(taken, rx, PktNum);
    assert arrived == taken + rx;
  }

  lemma PrefixCounts(a: seq<UploadPacket>, b: seq<UploadPacket>, num: nat)
    requires a <= b
    ensures Total(a, PktNum)[num] <= Total(b, PktNum)[num]
  {
    TotalJoin(a, b[|a|..], PktNum);
    assert b == a + b[|a|..];
  }

  /** The pop of packet `n` is impossible once a smaller number has been taken twice before it. */
  lemma NoPopAfterRepeat(h: Hist, first: seq<UploadPacket>, k: nat, n: nat)
    requires Conserved(h) && Fifo(h.arrived, h.s.rx) && h.s.next == n && k < n
    requires first <= h.arrived && Total(first, PktNum)[k] >= 2 && Total(first, PktNum)[n] == 0
    ensures !TopIs(h.s.heap, n)
  {
    if TopIs(h.s.heap, n) {
      var taken := TakenOf(h.arrived, h.s.rx);
      assert Held(h.s, n);
      TakenIs(h, n);
      FifoCounts(h.arrived, h.s.rx, n);
      assert Total(taken, PktNum)[n] > 0;
      if |taken| <= |first| {
        PrefixCounts(taken, first, n);
        assert false;
      }
      PrefixCounts(first, taken, k);
      FifoCounts(h.arrived, h.s.rx, k);
      TakenIs(h, k);
      RepeatedIsStale(h.s, k);
    }
  }

  lemma RepeatedIsStale(s: State, k: nat)
    requires k < s.next && Held(s, k)
    ensures !TopIs(s.heap, s.next)
  {
    StaleBlocksTop(s);
  }

  lemma StuckBefore(h: Hist, first: seq<UploadPacket>, k: nat, n: nat)
    requires Conserved(h) && Fifo(h.arrived, h.s.rx) && h.s.next == n && k < n
    requires first <= h.arrived && Total(first, PktNum)[k] >= 2 && Total(first, PktNum)[n] == 0
    ensures !TopIs(Absorb(h.s).heap, n)
  {
    AbsorbFifo(h.arrived, h.s);
    AbsorbKeeps(h.s);
    NoPopAfterRepeat(Hist(Absorb(h.s), h.arrived, h.got), first, k, n);
  }

  lemma NotYetArrived(h: Hist, first: seq<UploadPacket>, n: nat)
    requires Conserved(h) && h.arrived <= first && Total(first, PktNum)[n] == 0
    ensures h.s.next <= n
  {
    PrefixCounts(h.arrived, first, n);
    assert KnownNums(h.s)[n] == 0;
    assert Below(h.s.next)[n] == 0;
  }

  /** Two packets with one number stop the stream in every run: nothing beyond that number that comes after them
      is delivered. */
  lemma {:induction false} RepeatStops(hs: seq<Hist>, acts: seq<Action>, first: seq<UploadPacket>, k: nat, n: nat)
    requires Run(hs, acts) && k < n && (first <= hs[|acts|].arrived || hs[|acts|].arrived <= first)
    requires Total(first, PktNum)[k] >= 2 && Total(first, PktNum)[n] == 0
    ensures hs[|acts|].s.next <= n
    decreases |acts|
  {
    if |acts| == 0 {
    } else {
      var h, t, m := LastStep(hs, acts);
      RepeatStops(hs[..m + 1], acts[..m], first, k, n);
      ConservedAt(hs, acts, m);
      ConservedAt(hs, acts, |acts|);
      RunFifo(hs[..m + 1], acts[..m]);
      if t.arrived <= first {
        NotYetArrived(t, first, n);
      } else {
        StepAdvances(h, acts[m], t);
        if h.s.next == n && acts[m].Read? {
          StuckBefore(h, first, k, n);
        }
      }
    }
  }

  /** The last step of a run, and the run up to it. */
  lemma LastStep(hs: seq<Hist>, acts: seq<Action>) returns (h: Hist, t: Hist, m: nat)
    requires Run(hs, acts) && |acts| > 0
    ensures m == |acts| - 1 && h == hs[m] && t == hs[|acts|] && Step(h, acts[m], t)
    ensures Run(hs[..m + 1], acts[..m]) && hs[..m + 1][m] == h && h.arrived <= t.arrived
  {
    m := |acts| - 1;
    h, t := hs[m], hs[m + 1];
    assert Step(h, acts[m], t);
  }

  lemma ConservedAt(hs: seq<Hist>, acts: seq<Action>, i: nat)
    requires Run(hs, acts) && i <= |acts|
    ensures Conserved(hs[i])
  {
    RunConserves(hs, acts);
  }

  // ---- Completeness ----

  /** The numbers of the packets in front of the first item that is not a packet. */
  ghost function LeadNums(ps: seq<UploadPacket>): multiset<nat> {
    if |ps| == 0 || !ps[0].Packet? then multiset{} else multiset{ps[0].num} + LeadNums(ps[1..])
  }

  predicate OnlyPackets(ps: seq<UploadPacket>) {
    forall p :: p in ps ==> p.Packet?
  }

  lemma OnlyTail(ps: seq<UploadPacket>)
    requires |ps| > 0
    ensures OnlyPackets(ps) <==> ps[0].Packet? && OnlyPackets(ps[1..])
  {
    assert forall x :: x in ps <==> x == ps[0] || x in ps[1..];
  }

  lemma {:induction false} LeadSnoc(ps: seq<UploadPacket>, p: UploadPacket)
    ensures LeadNums(ps + [p]) == LeadNums(ps) + if OnlyPackets(ps) then PktNum(p) else multiset{}
    decreases |ps|
  {
    var all := ps + [p];
    if |ps| == 0 {
      assert all[1..] == [];
    } else {
      OnlyTail(ps);
      LeadHead(all, ps[0], ps[1..] + [p]);
      LeadHead(ps, ps[0], ps[1..]);
      if ps[0].Packet? {
        LeadSnoc(ps[1..], p);
        Nested(multiset{ps[0].num}, LeadNums(ps[1..]), if OnlyPackets(ps) then PktNum(p) else multiset{});
      }
    }
  }

  lemma Nested<T>(a: multiset<T>, b: multiset<T>, c: multiset<T>)
    ensures a + (b + c) == (a + b) + c
  {
  }

  lemma LeadHead(all: seq<UploadPacket>, p: UploadPacket, ps: seq<UploadPacket>)
    requires |all| > 0 && all[0] == p && all[1..] == ps
    ensures LeadNums(all) == if p.Packet? then multiset{p.num} + LeadNums(ps) else multiset{}
  {
  }

  /** The numbers delivered, held, or certain to be taken: an end of stream hides what is queued behind it. */
  ghost function Reach(s: State): multiset<nat> {
    Below(s.next) + Total(s.heap, EntryNum) + if s.eof then multiset{} else LeadNums(s.rx)
  }

  lemma {:induction false} AbsorbReach(s: State)
    ensures Reach(Absorb(s)) == Reach(s)
    decreases |s.rx|
  {
    if Idle(s) && |s.rx| > 0 && s.rx[0].Packet? {
      var e := Entry(s.rx[0].num, s.rx[0].data);
      TotalSnoc(s.heap, e, EntryNum);
      AbsorbReach(s.(rx := s.rx[1..], heap := s.heap + [e]));
    }
  }

  lemma FinishReach(s: State, room: nat, t: State, r: Poll)
    requires Finish(s, room, t, r)
    requires Idle(s) ==> s.rx == [] || !s.rx[0].Packet?
    ensures Reach(s) <= Reach(t)
  {
    if s.leftover == [] && s.buffered == [] && TopIs(s.heap, s.next) {
      PopReach(s, room, t, r);
    } else {
      RestReach(s, room, t, r);
    }
  }

  lemma PopReach(s: State, room: nat, t: State, r: Poll)
    requires Finish(s, room, t, r) && s.leftover == [] && s.buffered == [] && TopIs(s.heap, s.next)
    ensures Reach(s) == Reach(t)
  {
    var i :| 0 <= i < |s.heap| && IsTop(s.heap, i) && Pops(s, i, room, t, r);
    PoppedReach(s, i, t);
  }

  lemma PoppedReach(s: State, i: nat, t: State)
    requires i < |s.heap| && IsTop(s.heap, i) && TopIs(s.heap, s.next)
    requires t == s.(heap := Without(s.heap, i), leftover := t.leftover, next := s.next + 1)
    ensures Reach(s) == Reach(t)
  {
    PopKeepsNums(s.heap, i, s.next);
  }

  lemma RestReach(s: State, room: nat, t: State, r: Poll)
    requires Finish(s, room, t, r) && (s.leftover != [] || s.buffered != [] || !TopIs(s.heap, s.next))
    requires Idle(s) ==> s.rx == [] || !s.rx[0].Packet?
    ensures Reach(s) <= Reach(t)
  {
    assert t.next == s.next && t.heap == s.heap;
    if t.eof == s.eof && t.rx == s.rx {
    } else {
      assert LeadNums(s.rx) == multiset{};
    }
  }

  /** Whatever arrived ahead of an end of stream is within reach, and end of stream is not reported too early. */
  ghost predicate Led(h: Hist) {
    && Fifo(h.arrived, h.s.rx) && LeadNums(h.arrived) <= Reach(h.s)
    && (h.s.eof && OnlyPackets(h.arrived) ==> !h.s.open)
  }

  lemma ArriveLed(h: Hist, p: UploadPacket, k: Hist)
    requires Led(h) && Step(h, Arrive(p), k)
    ensures Led(k)
  {
    LeadSnoc(h.arrived, p);
    assert forall x :: x in h.s.rx ==> x in h.arrived;
    assert forall x :: x in h.arrived ==> x in k.arrived;
    ArriveReach(h.s, p, k.s);
    StepFifo(h, Arrive(p), k);
  }

  lemma ArriveReach(s: State, p: UploadPacket, t: State)
    requires t == s.(rx := s.rx + [p])
    ensures Reach(t) == Reach(s) + if !s.eof && OnlyPackets(s.rx) then PktNum(p) else multiset{}
  {
    LeadSnoc(s.rx, p);
  }

  lemma ReadLed(h: Hist, room: nat, r: Poll, k: Hist)
    requires Led(h) && Step(h, Read(room, r), k)
    ensures Led(k)
  {
    AbsorbFifo(h.arrived, h.s);
    AbsorbReach(h.s);
    FinishReach(Absorb(h.s), room, k.s, r);
    ReadOpen(h, Absorb(h.s), room, r, k);
  }

  lemma ReadOpen(h: Hist, m: State, room: nat, r: Poll, k: Hist)
    requires Fifo(h.arrived, m.rx) && Finish(m, room, k.s, r) && (m.eof && OnlyPackets(h.arrived) ==> !m.open)
    requires Idle(m) ==> m.rx == [] || !m.rx[0].Packet?
    ensures Fifo(h.arrived, k.s.rx) && (k.s.eof && OnlyPackets(h.arrived) ==> !k.s.open)
  {
    if |m.rx| > 0 {
      assert m.rx[0] in h.arrived;
    }
  }

  lemma {:induction false} RunLed(hs: seq<Hist>, acts: seq<Action>)
    requires Run(hs, acts)
    ensures Led(hs[|acts|])
    decreases |acts|
  {
    if |acts| == 0 {
      assert Below(0) == multiset{};
    } else {
      var n := |acts| - 1;
      RunLed(hs[..n + 1], acts[..n]);
      assert Step(hs[n], acts[n], hs[n + 1]);
      match acts[n]
      case Arrive(p) => ArriveLed(hs[n], p, hs[n + 1]);
      case Close =>
      case Read(room, r) => ReadLed(hs[n], room, r, hs[n + 1]);
    }
  }

  /** Packets 0 .. n - 1 are all within reach, and none is stale or empty. */
  ghost predicate Complete(data: nat -> Bytes, n: nat, s: State, got: Bytes) {
    && InOrder(data, s, got) && EofSettled(s)
    && (forall k: nat :: KnownNums(s)[k] <= 1)
    && (forall k: nat :: k < n ==> Reach(s)[k] >= 1 && data(k) != [])
  }

  lemma {:induction false} ArrivedGrows(hs: seq<Hist>, acts: seq<Action>, i: nat, j: nat)
    requires Steps(hs, acts) && i <= j <= |acts|
    ensures hs[i].arrived <= hs[j].arrived
    decreases j
  {
    if i == j {
    } else {
      ArrivedGrows(hs, acts, i, j - 1);
      assert Step(hs[j - 1], acts[j - 1], hs[j]);
    }
  }

  lemma {:induction false} LeadGrows(a: seq<UploadPacket>, b: seq<UploadPacket>)
    requires a <= b
    ensures LeadNums(a) <= LeadNums(b)
  {
    if |a| == 0 {
    } else {
      LeadGrows(a[1..], b[1..]);
    }
  }

  /** From the moment at which distinct non-empty packets 0 .. n - 1 have arrived ahead of any end of stream. */
  lemma RunIsComplete(data: nat -> Bytes, n: nat, hs: seq<Hist>, acts: seq<Action>, m: nat, i: nat)
    requires Run(hs, acts) && m <= i <= |acts|
    requires FromPackets(data, hs[|acts|].arrived) && DistinctNums(hs[|acts|].arrived)
    requires forall k: nat :: k < n ==> LeadNums(hs[m].arrived)[k] >= 1 && data(k) != []
    ensures Complete(data, n, hs[i].s, hs[i].got)
  {
    var ks, bs := hs[..i + 1], acts[..i];
    ArrivedGrows(hs, acts, m, i);
    ArrivedGrows(hs, acts, i, |acts|);
    EarlierArrivals(data, hs[i].arrived, hs[|acts|].arrived);
    RunInOrder(data, ks, bs);
    EndConserves(ks, bs);
    RunLed(ks, bs);
    NumbersOnce(hs[i]);
    LeadGrows(hs[m].arrived, hs[i].arrived);
  }

  lemma EarlierArrivals(data: nat -> Bytes, p: seq<UploadPacket>, q: seq<UploadPacket>)
    requires p <= q && FromPackets(data, q) && DistinctNums(q)
    ensures FromPackets(data, p) && DistinctNums(p)
  {
    assert forall x :: x in p ==> x in q;
    forall k: nat
      ensures Total(p, PktNum)[k] <= 1
    {
      PrefixCounts(p, q, k);
    }
  }

  lemma NumbersOnce(h: Hist)
    requires Conserved(h) && DistinctNums(h.arrived)
    ensures forall k: nat :: KnownNums(h.s)[k] <= 1
  {
    forall k: nat
      ensures KnownNums(h.s)[k] <= 1
    {
      assert Total(h.arrived, PktNum)[k] <= 1;
    }
  }

  lemma AwaitedIsTop(s: State)
    requires EofSettled(s) && s.leftover == [] && s.buffered == [] && Reach(s)[s.next] >= 1
    requires forall k: nat :: KnownNums(s)[k] <= 1
    requires Idle(s) ==> s.rx == [] || !s.rx[0].Packet?
    ensures TopIs(s.heap, s.next)
  {
    if !TopIs(s.heap, s.next) {
      assert s.eof || LeadNums(s.rx) == multiset{};
      assert Total(s.heap, EntryNum)[s.next] >= 1;
      HeapCounts(s.heap, s.next);
      forall e | e in s.heap
        ensures e.num >= s.next
      {
        HeapCounts(s.heap, e.num);
        assert KnownNums(s)[e.num] <= 1;
      }
      NotStaleTop(s);
    }
  }

  lemma FinishDelivers(data: nat -> Bytes, s: State, got: Bytes, room: nat, t: State, r: Poll)
    requires InOrder(data, s, got) && Finish(s, room, t, r) && room > 0
    requires s.leftover != [] || (TopIs(s.heap, s.next) && data(s.next) != [])
    ensures r.Ready? && |r.got| > 0
  {
    if s.leftover == [] {
      var i :| 0 <= i < |s.heap| && IsTop(s.heap, i) && Pops(s, i, room, t, r);
      TopDecides(s.heap, i, s.next);
      assert s.heap[i] in s.heap;
    }
  }

  /** While packets below `n` are missing, every read with a non-empty buffer delivers at least one byte. */
  lemma Progress(data: nat -> Bytes, n: nat, s: State, got: Bytes, room: nat, t: State, r: Poll)
    requires Complete(data, n, s, got) && PollStep(s, room, t, r) && room > 0
    requires s.next < n || s.leftover != []
    ensures r.Ready? && |r.got| > 0
  {
    var m := Absorb(s);
    AbsorbInOrder(data, s, got);
    if s.leftover == [] {
      AbsorbReach(s);
      AbsorbKeeps(s);
      AbsorbSettled(s);
      AwaitedIsTop(m);
    }
    FinishDelivers(data, m, got, room, t, r);
  }

  lemma {:induction false} UptoGrows(data: nat -> Bytes, n: nat, m: nat)
    requires n <= m
    ensures Upto(data, n) <= Upto(data, m)
  {
    if n >= m {
    } else {
      UptoGrows(data, n, m - 1);
    }
  }

  lemma Exhausted(data: nat -> Bytes, n: nat, s: State, got: Bytes)
    requires InOrder(data, s, got) && n <= s.next && s.leftover == []
    ensures Upto(data, n) <= got
  {
    UptoGrows(data, n, s.next);
    assert got + [] == got;
  }

  /** The reads among some actions that had room for at least one byte. */
  function RoomyReads(acts: seq<Action>): nat {
    if |acts| == 0 then 0
    else RoomyReads(acts[..|acts| - 1]) + if acts[|acts| - 1].Read? && acts[|acts| - 1].room > 0 then 1 else 0
  }

  /** Each such read delivers at least one byte until all of packets 0 .. n - 1 are delivered. */
  lemma {:induction false} EachReadCounts(data: nat -> Bytes, n: nat, hs: seq<Hist>, acts: seq<Action>)
    requires Steps(hs, acts)
    requires forall i :: 0 <= i < |acts| ==> Complete(data, n, hs[i].s, hs[i].got)
    ensures Upto(data, n) <= hs[|acts|].got || |hs[|acts|].got| >= RoomyReads(acts)
    decreases |acts|
  {
    if |acts| == 0 {
    } else {
      var m := |acts| - 1;
      var h := hs[m];
      assert Step(h, acts[m], hs[m + 1]);
      EachReadCounts(data, n, hs[..m + 1], acts[..m]);
      if h.s.next < n || h.s.leftover != [] {
        if acts[m].Read? && acts[m].room > 0 {
          Progress(data, n, h.s, h.got, acts[m].room, hs[m + 1].s, acts[m].r);
        }
      } else {
        Exhausted(data, n, h.s, h.got);
      }
    }
  }

  /** Once distinct non-empty packets 0 .. n - 1 have arrived ahead of any end of stream, as many reads with
      room as they have bytes deliver all of them, whatever else arrives, is read or is closed in between. */
  lemma AllDelivered(data: nat -> Bytes, n: nat, hs: seq<Hist>, acts: seq<Action>, m: nat)
    requires Run(hs, acts) && m <= |acts|
    requires FromPackets(data, hs[|acts|].arrived) && DistinctNums(hs[|acts|].arrived)
    requires forall k: nat :: k < n ==> LeadNums(hs[m].arrived)[k] >= 1 && data(k) != []
    requires RoomyReads(acts[m..]) >= |Upto(data, n)|
    ensures Upto(data, n) <= hs[|acts|].got
  {
    var ks, bs := hs[m..], acts[m..];
    forall i | m <= i <= |acts|
      ensures Complete(data, n, hs[i].s, hs[i].got)
    {
      RunIsComplete(data, n, hs, acts, m, i);
    }
    forall i | 0 <= i < |bs|
      ensures Step(ks[i], bs[i], ks[i + 1])
    {
      assert Step(hs[m + i], acts[m + i], hs[m + i + 1]);
    }
    EachReadCounts(data, n, ks, bs);
    LongEnough(data, n, hs[|acts|]);
  }

  lemma LongEnough(data: nat -> Bytes, n: nat, h: Hist)
    requires InOrder(data, h.s, h.got)
    ensures |h.got| >= |Upto(data, n)| ==> Upto(data, n) <= h.got
  {
    if n <= h.s.next {
      UptoGrows(data, n, h.s.next);
    } else {
      UptoGrows(data, h.s.next, n);
    }
  }
}
