/** Fragments delivered in any order and any interleaving give back the packets they were cut from. */
module HysteriaReassemblyProofs {
  import opened Bytes
  import opened HysteriaFrames
  import opened HysteriaReassembly

  /** A packet on its way: its payload and the socket address that goes with it. */
  datatype Msg = Msg(payload: Bytes, src: SocketAddr) {
    predicate Valid() { src.Valid() && |payload| <= UDP_MAX_PKT }
    function Count(): nat { |Pieces(payload)| }
    function Whole(): Datagram { Datagram(payload, src.ip, src.port) }
  }

  /** Fragment `i` of packet `id`. */
  datatype Label = Label(id: u16, i: nat)

  type Msgs = map<u16, Msg>

  ghost predicate ValidMsgs(msgs: Msgs) {
    forall p :: p in msgs ==> msgs[p].Valid()
  }

  ghost predicate IsLabel(msgs: Msgs, l: Label) {
    l.id in msgs && l.i < msgs[l.id].Count()
  }

  /** The frame with that label, as the receiver parses it. */
  function FrameOf(session: u32, msgs: Msgs, l: Label): UdpFrame
    requires ValidMsgs(msgs) && IsLabel(msgs, l)
  {
    var m := msgs[l.id];
    PiecesFit(m.payload);
    UdpFrame(session, l.id, l.i, m.Count(), m.src.ip, m.src.port, Pieces(m.payload)[l.i])
  }

  ghost predicate Labels(msgs: Msgs, ls: seq<Label>) {
    && (forall l :: l in ls ==> IsLabel(msgs, l))
    && (forall a, b :: 0 <= a < b < |ls| ==> ls[a] != ls[b])
  }

  function Frames(session: u32, msgs: Msgs, ls: seq<Label>): seq<UdpFrame>
    requires ValidMsgs(msgs) && forall l :: l in ls ==> IsLabel(msgs, l)
  {
    seq(|ls|, k requires 0 <= k < |ls| => assert ls[k] in ls; FrameOf(session, msgs, ls[k]))
  }

  /** The fragments of packet `p` among `ls`. */
  function Seen(ls: seq<Label>, p: u16): set<nat> {
    set l | l in ls && l.id == p :: l.i
  }

  lemma SeenSnoc(ls: seq<Label>, l: Label, p: u16)
    ensures Seen(ls + [l], p) == if p == l.id then Seen(ls, p) + {l.i} else Seen(ls, p)
  {
    forall i | i in Seen(ls, p)
      ensures i in Seen(ls + [l], p)
    {
      var x :| x in ls && x.id == p && x.i == i;
      assert x in ls + [l];
    }
    assert l in ls + [l];
  }

  ghost predicate EntryOk(m: Msg, seen: set<nat>, f: Frag) {
    && f.total as int == m.Count() && f.received == |seen| && f.addr == m.src.ip && f.port == m.src.port
    && (forall i: byte :: i in f.frags <==> i in seen)
    && (forall i: byte :: i in f.frags ==> i < m.Count() && f.frags[i] == Pieces(m.payload)[i])
  }

  /** What the receiver's table must hold for packet `p`. */
  ghost predicate SlotOk(msgs: Msgs, ls: seq<Label>, t: Table, p: u16)
    requires p in msgs
  {
    var seen := Seen(ls, p);
    (p in t <==> 0 < |seen| < msgs[p].Count()) && (p in t ==> EntryOk(msgs[p], seen, t[p]))
  }

  ghost predicate TableMatches(msgs: Msgs, ls: seq<Label>, t: Table) {
    && (forall p :: p in t ==> p in msgs)
    && (forall p :: p in msgs ==> SlotOk(msgs, ls, t, p))
  }

  /** The packets all of whose fragments are among `ls`. */
  ghost predicate AreDone(msgs: Msgs, ls: seq<Label>, done: seq<u16>) {
    forall p :: p in done <==> p in msgs && |Seen(ls, p)| == msgs[p].Count()
  }

  /** The packets emitted so far, in order of completion: each complete packet once, and unchanged. */
  ghost predicate Emitted(msgs: Msgs, ls: seq<Label>, done: seq<u16>, out: seq<Datagram>) {
    && AreDone(msgs, ls, done)
    && (forall a, b :: 0 <= a < b < |done| ==> done[a] != done[b])
    && |out| == |done| && (forall k :: 0 <= k < |done| ==> done[k] in msgs && out[k] == msgs[done[k]].Whole())
  }

  // ---- Assembly ----

  lemma {:induction false} NoIdsAbove(keys: set<byte>, lo: nat)
    requires forall k :: k in keys ==> k < lo
    ensures SortedIds(keys, lo) == []
    decreases 256 - lo
  {
    if lo >= 256 {
    } else {
      NoIdsAbove(keys, lo + 1);
    }
  }

  ghost predicate HoldsPieces(frags: map<byte, Bytes>, pieces: seq<Bytes>) {
    forall i :: i in frags ==> i < |pieces| && frags[i] == pieces[i]
  }

  /** With every piece present the assembly is the packet, and with one missing it is shorter. */
  lemma {:induction false} GatherFrom(frags: map<byte, Bytes>, pieces: seq<Bytes>, lo: nat)
    requires |pieces| <= 255 && lo <= |pieces| && HoldsPieces(frags, pieces)
    ensures (forall id :: id in SortedIds(frags.Keys, lo) ==> id in frags)
    ensures var got := Gather(frags, SortedIds(frags.Keys, lo));
            && |got| <= |Concat(pieces[lo..])|
            && ((forall i: byte :: lo <= i < |pieces| ==> i in frags) ==> got == Concat(pieces[lo..]))
            && ((exists i: byte :: lo <= i < |pieces| && i !in frags && |pieces[i]| > 0) ==>
                  |got| < |Concat(pieces[lo..])|)
    decreases 256 - lo
  {
    SortedIdsAreKeys(frags.Keys, lo);
    if lo == |pieces| {
      NoIdsAbove(frags.Keys, lo);
    } else {
      GatherFrom(frags, pieces, lo + 1);
      var ids := SortedIds(frags.Keys, lo);
      assert pieces[lo..][1..] == pieces[lo + 1..];
      if lo in frags.Keys {
        assert ids == [lo as byte] + SortedIds(frags.Keys, lo + 1);
        assert ids[1..] == SortedIds(frags.Keys, lo + 1);
      } else {
        assert ids == SortedIds(frags.Keys, lo + 1);
      }
    }
  }

  lemma AssembleWhole(frags: map<byte, Bytes>, payload: Bytes)
    requires |payload| <= UDP_MAX_PKT && HoldsPieces(frags, Pieces(payload))
    requires forall i: byte :: i < |Pieces(payload)| ==> i in frags
    ensures Assemble(frags) == payload
  {
    PiecesFit(payload);
    GatherFrom(frags, Pieces(payload), 0);
    assert Pieces(payload)[0..] == Pieces(payload);
  }

  function Range(n: nat): (r: set<nat>)
    ensures forall i: nat :: i in r <==> i < n
  {
    if n == 0 then {} else Range(n - 1) + {n - 1}
  }

  lemma {:induction false} RangeSize(n: nat)
    ensures |Range(n)| == n
  {
    if n == 0 {
    } else {
      RangeSize(n - 1);
      assert Range(n) == Range(n - 1) + {n - 1};
    }
  }

  lemma SeenInRange(msgs: Msgs, ls: seq<Label>, p: u16)
    requires Labels(msgs, ls) && p in msgs
    ensures Seen(ls, p) <= Range(msgs[p].Count()) && |Seen(ls, p)| <= msgs[p].Count()
    ensures |Seen(ls, p)| == msgs[p].Count() ==> Seen(ls, p) == Range(msgs[p].Count())
  {
    var s, n := Seen(ls, p), msgs[p].Count();
    RangeSize(n);
    assert s <= Range(n);
    assert |Range(n) - s| == |Range(n)| - |s|;
  }

  // ---- One frame ----

  lemma NewFragment(msgs: Msgs, ls: seq<Label>, l: Label)
    requires Labels(msgs, ls + [l])
    ensures l.i !in Seen(ls, l.id) && |Seen(ls + [l], l.id)| == |Seen(ls, l.id)| + 1 && IsLabel(msgs, l)
  {
    SeenSnoc(ls, l, l.id);
    assert (ls + [l])[|ls|] == l && l in ls + [l];
    assert l !in ls by {
      assert forall k :: 0 <= k < |ls| ==> (ls + [l])[k] == ls[k];
    }
  }

  lemma LabelsPrefix(msgs: Msgs, ls: seq<Label>, l: Label)
    requires Labels(msgs, ls + [l])
    ensures Labels(msgs, ls)
  {
    assert forall k :: 0 <= k < |ls| ==> (ls + [l])[k] == ls[k];
    forall x | x in ls
      ensures IsLabel(msgs, x)
    {
      assert x in ls + [l];
    }
  }

  lemma AddOk(m: Msg, seen: set<nat>, f: Frag, i: byte)
    requires EntryOk(m, seen, f) && i < m.Count() && i as nat !in seen
    ensures EntryOk(m, seen + {i as nat}, Add(f, i, Pieces(m.payload)[i]))
  {
  }

  /** The entry of the packet of label `l` after its fragment was added. */
  lemma EntryStep(session: u32, msgs: Msgs, ls: seq<Label>, l: Label, t: Table)
    requires ValidMsgs(msgs) && Labels(msgs, ls + [l]) && TableMatches(msgs, ls, t)
    requires IsLabel(msgs, l) && msgs[l.id].Count() >= 2
    ensures var f := FrameOf(session, msgs, l);
            EntryOk(msgs[l.id], Seen(ls + [l], l.id), Add(EntryFor(t, f), f.fragId, f.payload))
  {
    var m := msgs[l.id];
    PiecesFit(m.payload);
    NewFragment(msgs, ls, l);
    SeenSnoc(ls, l, l.id);
    SeenInRange(msgs, ls + [l], l.id);
    assert SlotOk(msgs, ls, t, l.id);
    var f := FrameOf(session, msgs, l);
    assert EntryOk(m, Seen(ls, l.id), EntryFor(t, f));
    AddOk(m, Seen(ls, l.id), EntryFor(t, f), l.i);
  }

  lemma FinishedWhole(m: Msg, seen: set<nat>, f: Frag)
    requires m.Valid() && EntryOk(m, seen, f) && seen == Range(m.Count())
    ensures Finished(f) == Some(m.Whole())
  {
    RangeSize(m.Count());
    PiecesFit(m.payload);
    AssembleWhole(f.frags, m.payload);
  }

  lemma RelayOther(session: u32, msgs: Msgs, ls: seq<Label>, l: Label, t: Table, p: u16)
    requires ValidMsgs(msgs) && IsLabel(msgs, l) && TableMatches(msgs, ls, t) && p in msgs && p != l.id
    ensures SlotOk(msgs, ls + [l], Relay(t, FrameOf(session, msgs, l)).table, p)
  {
    SeenSnoc(ls, l, p);
    assert SlotOk(msgs, ls, t, p);
  }

  /** One more fragment: the slot of its packet, and what is emitted. */
  lemma RelayOwn(session: u32, msgs: Msgs, ls: seq<Label>, l: Label, t: Table)
    requires ValidMsgs(msgs) && Labels(msgs, ls + [l]) && TableMatches(msgs, ls, t) && IsLabel(msgs, l)
    ensures var o := Relay(t, FrameOf(session, msgs, l));
            && SlotOk(msgs, ls + [l], o.table, l.id)
            && o.out == if |Seen(ls + [l], l.id)| == msgs[l.id].Count() then [msgs[l.id].Whole()] else []
  {
    var m := msgs[l.id];
    var seen := Seen(ls + [l], l.id);
    PiecesFit(m.payload);
    NewFragment(msgs, ls, l);
    SeenInRange(msgs, ls + [l], l.id);
    if m.Count() == 1 {
      SingleSlot(msgs, ls, l, t);
    } else {
      var f := FrameOf(session, msgs, l);
      EntryStep(session, msgs, ls, l, t);
      var g := Add(EntryFor(t, f), f.fragId, f.payload);
      FinishedIff(m, seen, g);
      FragmentRelayed(t, f, g);
    }
  }

  lemma FinishedIff(m: Msg, seen: set<nat>, g: Frag)
    requires m.Valid() && EntryOk(m, seen, g) && (|seen| == m.Count() ==> seen == Range(m.Count()))
    requires |seen| <= m.Count()
    ensures Finished(g) == if |seen| == m.Count() then Some(m.Whole()) else None
  {
    if |seen| == m.Count() {
      FinishedWhole(m, seen, g);
    }
  }

  lemma FragmentRelayed(t: Table, f: UdpFrame, g: Frag)
    requires f.fragTotal > 1 && g == Add(EntryFor(t, f), f.fragId, f.payload)
    ensures Relay(t, f) == if Finished(g).None? then Outcome(t[f.packet := g], [])
                           else Outcome(t - {f.packet}, [Finished(g).value])
  {
  }

  lemma SingleSlot(msgs: Msgs, ls: seq<Label>, l: Label, t: Table)
    requires ValidMsgs(msgs) && Labels(msgs, ls + [l]) && TableMatches(msgs, ls, t)
    requires IsLabel(msgs, l) && msgs[l.id].Count() == 1
    ensures |Seen(ls + [l], l.id)| == 1 && SlotOk(msgs, ls + [l], t, l.id)
    ensures Pieces(msgs[l.id].payload) == [msgs[l.id].payload]
  {
    NewFragment(msgs, ls, l);
    LabelsPrefix(msgs, ls, l);
    SeenInRange(msgs, ls + [l], l.id);
    PiecesFit(msgs[l.id].payload);
    assert SlotOk(msgs, ls, t, l.id);
  }

  lemma CompleteStep(msgs: Msgs, ls: seq<Label>, l: Label, p: u16)
    requires Labels(msgs, ls + [l]) && IsLabel(msgs, l) && p in msgs
    ensures p != l.id ==> Seen(ls + [l], p) == Seen(ls, p)
    ensures p == l.id ==> |Seen(ls, p)| < msgs[p].Count()
  {
    SeenSnoc(ls, l, p);
    NewFragment(msgs, ls, l);
    SeenInRange(msgs, ls + [l], l.id);
  }

  lemma EmitsOne(msgs: Msgs, ls: seq<Label>, more: seq<Label>, done: seq<u16>, id: u16, out: seq<Datagram>)
    requires Emitted(msgs, ls, done, out) && id in msgs && id !in done && AreDone(msgs, more, done + [id])
    ensures Emitted(msgs, more, done + [id], out + [msgs[id].Whole()])
  {
  }

  lemma EmitsNone(msgs: Msgs, ls: seq<Label>, more: seq<Label>, done: seq<u16>, out: seq<Datagram>)
    requires Emitted(msgs, ls, done, out) && AreDone(msgs, more, done)
    ensures Emitted(msgs, more, done, out + [])
  {
    assert out + [] == out;
  }

  lemma EmittedStep(msgs: Msgs, ls: seq<Label>, l: Label, done: seq<u16>, out: seq<Datagram>)
    requires Labels(msgs, ls + [l]) && IsLabel(msgs, l) && Emitted(msgs, ls, done, out)
    ensures var complete := |Seen(ls + [l], l.id)| == msgs[l.id].Count();
            Emitted(msgs, ls + [l], if complete then done + [l.id] else done,
                    out + if complete then [msgs[l.id].Whole()] else [])
  {
    CompleteStep(msgs, ls, l, l.id);
    assert l.id !in done;
    var complete := |Seen(ls + [l], l.id)| == msgs[l.id].Count();
    var after := if complete then done + [l.id] else done;
    forall p
      ensures p in after <==> p in msgs && |Seen(ls + [l], p)| == msgs[p].Count()
    {
      if p in msgs {
        CompleteStep(msgs, ls, l, p);
      }
    }
    if complete {
      EmitsOne(msgs, ls, ls + [l], done, l.id, out);
    } else {
      EmitsNone(msgs, ls, ls + [l], done, out);
    }
  }

  lemma FramesSnoc(session: u32, msgs: Msgs, ls: seq<Label>)
    requires ValidMsgs(msgs) && Labels(msgs, ls) && |ls| > 0
    ensures var n := |ls| - 1;
            && ls == ls[..n] + [ls[n]] && IsLabel(msgs, ls[n]) && Labels(msgs, ls[..n])
            && |Frames(session, msgs, ls)| == n + 1
            && Frames(session, msgs, ls)[..n] == Frames(session, msgs, ls[..n])
            && Frames(session, msgs, ls)[n] == FrameOf(session, msgs, ls[n])
  {
    var n := |ls| - 1;
    assert ls == ls[..n] + [ls[n]];
    LabelsPrefix(msgs, ls[..n], ls[n]);
    assert ls[n] in ls;
  }

  /** The invariant of every run over distinct fragments, whatever their order. */
  lemma {:induction false} RunInvariant(session: u32, msgs: Msgs, ls: seq<Label>) returns (done: seq<u16>)
    requires ValidMsgs(msgs) && Labels(msgs, ls)
    ensures var o := RunFrames(Frames(session, msgs, ls));
            TableMatches(msgs, ls, o.table) && Emitted(msgs, ls, done, o.out)
  {
    if |ls| == 0 {
      done := [];
      forall p | p in msgs
        ensures msgs[p].Count() > 0 && Seen(ls, p) == {}
      {
        PiecesFit(msgs[p].payload);
      }
    } else {
      var n := |ls| - 1;
      var l := ls[n];
      FramesSnoc(session, msgs, ls);
      done := RunInvariant(session, msgs, ls[..n]);
      var o := RunFrames(Frames(session, msgs, ls[..n]));
      RelayOwn(session, msgs, ls[..n], l, o.table);
      TableStep(session, msgs, ls[..n], l, o.table);
      EmittedStep(msgs, ls[..n], l, done, o.out);
      if |Seen(ls, l.id)| == msgs[l.id].Count() {
        done := done + [l.id];
      }
    }
  }

  lemma TableStep(session: u32, msgs: Msgs, ls: seq<Label>, l: Label, t: Table)
    requires ValidMsgs(msgs) && Labels(msgs, ls + [l]) && IsLabel(msgs, l) && TableMatches(msgs, ls, t)
    ensures TableMatches(msgs, ls + [l], Relay(t, FrameOf(session, msgs, l)).table)
  {
    forall p | p in msgs
      ensures SlotOk(msgs, ls + [l], Relay(t, FrameOf(session, msgs, l)).table, p)
    {
      if p == l.id {
        RelayOwn(session, msgs, ls, l, t);
      } else {
        RelayOther(session, msgs, ls, l, t, p);
      }
    }
  }

  // ---- The theorems ----

  /** `ls` names every fragment of every packet. */
  ghost predicate Covers(msgs: Msgs, ls: seq<Label>) {
    forall p, i: nat :: p in msgs && i < msgs[p].Count() ==> Label(p, i) in ls
  }

  /** All fragments, once each, in any order and interleaving: every packet is emitted once and the table is empty. */
  lemma AllReassembled(session: u32, msgs: Msgs, ls: seq<Label>) returns (done: seq<u16>)
    requires ValidMsgs(msgs) && Labels(msgs, ls) && Covers(msgs, ls)
    ensures var o := RunFrames(Frames(session, msgs, ls));
            && o.table == map[]
            && (forall p :: p in done <==> p in msgs)
            && (forall a, b :: 0 <= a < b < |done| ==> done[a] != done[b])
            && |o.out| == |done| && forall k :: 0 <= k < |done| ==> done[k] in msgs && o.out[k] == msgs[done[k]].Whole()
  {
    done := RunInvariant(session, msgs, ls);
    var o := RunFrames(Frames(session, msgs, ls));
    forall p | p in msgs
      ensures |Seen(ls, p)| == msgs[p].Count()
    {
      SeenAll(msgs, ls, p);
    }
    forall p
      ensures p !in o.table
    {
      assert p in msgs ==> SlotOk(msgs, ls, o.table, p);
    }
  }

  lemma SendsJoin(a: seq<Datagram>, b: seq<Datagram>)
    ensures Sends(a + b) == Sends(a) + Sends(b)
  {
  }

  /** What the socket is given then: each packet once, its payload whole, and its host and port as the target. */
  lemma AllSent(session: u32, msgs: Msgs, ls: seq<Label>) returns (done: seq<u16>)
    requires ValidMsgs(msgs) && Labels(msgs, ls) && Covers(msgs, ls)
    ensures var sent := Sends(RunFrames(Frames(session, msgs, ls)).out);
            && |sent| == |done| && (forall p :: p in done <==> p in msgs)
            && (forall a, b :: 0 <= a < b < |done| ==> done[a] != done[b])
            && forall k :: 0 <= k < |done| ==>
                 && done[k] in msgs && sent[k].payload == msgs[done[k]].payload
                 && sent[k].target == msgs[done[k]].src.ip + [58] + Decimal(msgs[done[k]].src.port)
                 && SplitHostPort(sent[k].target) == Some(HostPort(msgs[done[k]].src.ip, msgs[done[k]].src.port))
  {
    done := AllReassembled(session, msgs, ls);
    forall k | 0 <= k < |done|
      ensures var m := msgs[done[k]];
              SplitHostPort(m.Whole().Target()) == Some(HostPort(m.src.ip, m.src.port))
    {
      TargetSplits(msgs[done[k]].src, msgs[done[k]].payload);
    }
  }

  lemma SeenAll(msgs: Msgs, ls: seq<Label>, p: u16)
    requires Labels(msgs, ls) && Covers(msgs, ls) && p in msgs
    ensures |Seen(ls, p)| == msgs[p].Count()
  {
    SeenInRange(msgs, ls, p);
    RangeSize(msgs[p].Count());
    forall i | i in Range(msgs[p].Count())
      ensures i in Seen(ls, p)
    {
      assert Label(p, i) in ls;
    }
    assert Seen(ls, p) == Range(msgs[p].Count());
  }

  /** The frames above are what the bytes of `build_udp_frames` parse to. */
  lemma WireFrames(session: u32, msgs: Msgs, l: Label)
    requires ValidMsgs(msgs) && IsLabel(msgs, l)
    ensures var m := msgs[l.id];
            var wire := BuildUdpFrames(session, l.id, m.src, m.payload);
            l.i < |wire| <= 60 && ParseUdpFrame(wire[l.i]) == Some(FrameOf(session, msgs, l))
  {
    BuiltFrameParses(session, l.id, msgs[l.id].src, msgs[l.id].payload, l.i);
  }
}
