/** Fragments that arrive more than once, in any interleaving with other packets. */
module HysteriaDuplicates {
  import opened Bytes
  import opened HysteriaFrames
  import opened HysteriaReassembly
  import opened HysteriaReassemblyProofs

  /** The number of fragments of a packet. */
  function Size(m: Msg): (n: nat)
    requires m.Valid()
    ensures n == m.Count() && 1 <= n <= 60
  {
    PiecesFit(m.payload);
    m.Count()
  }

  ghost predicate AllLabels(msgs: Msgs, ls: seq<Label>) {
    forall l :: l in ls ==> IsLabel(msgs, l)
  }

  /** The frames of packet `p`, in order of arrival. */
  function Of(ls: seq<Label>, p: u16): seq<Label> {
    if |ls| == 0 then []
    else Of(ls[..|ls| - 1], p) + if ls[|ls| - 1].id == p then [ls[|ls| - 1]] else []
  }

  lemma OfSnoc(ls: seq<Label>, l: Label, p: u16)
    ensures Of(ls + [l], p) == Of(ls, p) + if l.id == p then [l] else []
  {
    assert (ls + [l])[..|ls|] == ls;
  }

  /** The frames of packet `p` since the last time as many had arrived as it has fragments. */
  function Recent(msgs: Msgs, ls: seq<Label>, p: u16): seq<Label>
    requires ValidMsgs(msgs) && p in msgs
  {
    Tail(Of(ls, p), Remainder(|Of(ls, p)|, Size(msgs[p])))
  }

  function Tail<T>(s: seq<T>, n: nat): seq<T>
    requires n <= |s|
  {
    s[|s| - n..]
  }

  /** `k % n`, counted up. */
  function Remainder(k: nat, n: nat): (r: nat)
    requires n > 0
    ensures r < n && r <= k
  {
    if k == 0 then 0 else if Remainder(k - 1, n) + 1 == n then 0 else Remainder(k - 1, n) + 1
  }

  lemma {:induction false} RemainderIsMod(k: nat, n: nat)
    requires n > 0
    ensures Remainder(k, n) == k % n
  {
    if k == 0 {
      DivMod(0, n, 0, 0);
    } else {
      RemainderIsMod(k - 1, n);
      NextMod(k - 1, n);
    }
  }

  lemma NextMod(k: nat, n: nat)
    requires n > 0
    ensures (k + 1) % n == if k % n + 1 == n then 0 else k % n + 1
  {
    DivModBack(k, n);
    if k % n + 1 == n {
      DivMod(k + 1, n, k / n + 1, 0);
    } else {
      DivMod(k + 1, n, k / n, k % n + 1);
    }
  }

  lemma RemainderNext(k: nat, m: nat, n: nat)
    requires n > 0 && m == k + 1
    ensures Remainder(m, n) == if Remainder(k, n) + 1 == n then 0 else Remainder(k, n) + 1
  {
  }

  lemma TailSnoc(s: seq<Label>, t: seq<Label>, x: Label, i: nat, j: nat)
    requires t == s + [x] && i <= |s| && (j == 0 || j == i + 1)
    ensures Tail(t, j) == if j == 0 then [] else Tail(s, i) + [x]
  {
  }

  lemma RecentSnoc(msgs: Msgs, ls: seq<Label>, l: Label)
    requires ValidMsgs(msgs) && l.id in msgs
    ensures var r, n, all := Recent(msgs, ls, l.id), Size(msgs[l.id]), ls + [l];
            && |r| < n && (Remainder(|Of(all, l.id)|, n) == 0 <==> |r| + 1 == n)
            && Recent(msgs, all, l.id) == if |r| + 1 == n then [] else r + [l]
  {
    var n := Size(msgs[l.id]);
    OfSnoc(ls, l, l.id);
    var s, t := Of(ls, l.id), Of(ls + [l], l.id);
    RemainderNext(|s|, |t|, n);
    TailSnoc(s, t, l, Remainder(|s|, n), Remainder(|t|, n));
    assert |Recent(msgs, ls, l.id)| == Remainder(|s|, n);
  }

  lemma RecentEmpty(msgs: Msgs, ls: seq<Label>, p: u16)
    requires ValidMsgs(msgs) && p in msgs
    ensures Recent(msgs, ls, p) == [] <==> |Of(ls, p)| % Size(msgs[p]) == 0
  {
    RemainderIsMod(|Of(ls, p)|, Size(msgs[p]));
  }

  lemma RecentOther(msgs: Msgs, ls: seq<Label>, l: Label, p: u16)
    requires ValidMsgs(msgs) && p in msgs && p != l.id
    ensures Recent(msgs, ls + [l], p) == Recent(msgs, ls, p)
  {
    OfSnoc(ls, l, p);
    assert Of(ls, p) + [] == Of(ls, p);
  }

  predicate Has(block: seq<Label>, i: nat) {
    exists l :: l in block && l.i == i
  }

  /** An entry counts frames and keeps the pieces among them. */
  ghost predicate PartialOk(m: Msg, block: seq<Label>, f: Frag) {
    && f.total as int == m.Count() && f.received == |block| && f.addr == m.src.ip && f.port == m.src.port
    && HoldsPieces(f.frags, Pieces(m.payload))
    && (forall i: byte :: i in f.frags <==> Has(block, i))
  }

  lemma PartialAdd(m: Msg, block: seq<Label>, l: Label, f: Frag)
    requires PartialOk(m, block, f) && l.i < m.Count() <= 60
    ensures PartialOk(m, block + [l], Add(f, l.i, Pieces(m.payload)[l.i]))
  {
    HasSnoc(block, l);
  }

  lemma HasSnoc(block: seq<Label>, l: Label)
    ensures forall i: nat :: Has(block + [l], i) <==> Has(block, i) || l.i == i
  {
    assert forall x :: x in block + [l] <==> x in block || x == l;
  }

  // ---- What is emitted ----

  /** A packet is emitted with these frames: as many as it has fragments, perhaps some of them twice. */
  datatype Completion = Completion(id: u16, block: seq<Label>)

  function Completions(msgs: Msgs, ls: seq<Label>): seq<Completion>
    requires ValidMsgs(msgs) && AllLabels(msgs, ls)
  {
    if |ls| == 0 then []
    else
      var before, l := ls[..|ls| - 1], ls[|ls| - 1];
      assert l in ls && AllLabels(msgs, before);
      Completions(msgs, before)
      + if Remainder(|Of(ls, l.id)|, Size(msgs[l.id])) == 0
        then [Completion(l.id, Recent(msgs, before, l.id) + [l])] else []
  }

  /** The address is right in any case; the packet is unchanged exactly when every fragment is among the frames. */
  ghost predicate EmittedAs(m: Msg, block: seq<Label>, d: Datagram) {
    && d.addr == m.src.ip && d.port == m.src.port
    && (d == m.Whole() <==> forall i: nat :: i < m.Count() ==> Has(block, i))
  }

  lemma {:induction false} PiecesNotEmpty(b: Bytes, n: nat)
    requires n > 0
    ensures forall c :: c in Chunks(b, n) ==> |c| > 0
    decreases |b|
  {
    if |b| <= n {
    } else {
      PiecesNotEmpty(b[n..], n);
    }
  }

  lemma MissingPiece(m: Msg, block: seq<Label>, f: Frag, i: byte)
    requires m.Valid() && m.Count() >= 2 && PartialOk(m, block, f) && i < m.Count() <= 60 && !Has(block, i)
    ensures |Assemble(f.frags)| < |m.payload|
  {
    var pieces := Pieces(m.payload);
    PiecesFit(m.payload);
    PiecesNotEmpty(m.payload, DATAGRAM_MAX_PAYLOAD);
    assert pieces[0..] == pieces && pieces[i] in pieces;
    GatherFrom(f.frags, pieces, 0);
  }

  lemma CompletedAs(m: Msg, block: seq<Label>, f: Frag)
    requires m.Valid() && 2 <= m.Count() <= 60 && PartialOk(m, block, f) && |block| == m.Count()
    ensures Finished(f).Some? && EmittedAs(m, block, Finished(f).value)
  {
    if i: nat :| i < m.Count() && !Has(block, i) {
      MissingPiece(m, block, f, i);
    } else {
      forall b: byte | b < m.Count()
        ensures b in f.frags
      {
        assert Has(block, b);
      }
      AssembleWhole(f.frags, m.payload);
    }
  }

  // ---- One frame ----

  /** What the table must hold for packet `p`. */
  ghost predicate SlotAfter(msgs: Msgs, ls: seq<Label>, t: Table, p: u16)
    requires ValidMsgs(msgs) && p in msgs
  {
    var block := Recent(msgs, ls, p);
    (p in t <==> block != []) && (p in t ==> PartialOk(msgs[p], block, t[p]))
  }

  /** What one frame adds to the output. */
  ghost predicate Adds(m: Msg, block: seq<Label>, out: seq<Datagram>) {
    if |block| == m.Count() then |out| == 1 && EmittedAs(m, block, out[0]) else out == []
  }

  lemma OwnFrame(session: u32, msgs: Msgs, ls: seq<Label>, l: Label, t: Table)
    requires ValidMsgs(msgs) && IsLabel(msgs, l) && SlotAfter(msgs, ls, t, l.id)
    ensures var o := Relay(t, FrameOf(session, msgs, l));
            SlotAfter(msgs, ls + [l], o.table, l.id) && Adds(msgs[l.id], Recent(msgs, ls, l.id) + [l], o.out)
  {
    var m, block := msgs[l.id], Recent(msgs, ls, l.id);
    assert Size(m) == m.Count();
    RecentSnoc(msgs, ls, l);
    if m.Count() == 1 {
      SingleFrame(session, msgs, l, block, t);
    } else {
      var f := FrameOf(session, msgs, l);
      var g := Add(EntryFor(t, f), f.fragId, f.payload);
      FragmentAdded(session, msgs, l, block, t);
      if |block| + 1 == m.Count() {
        CompletedAs(m, block + [l], g);
      } else {
        assert Finished(g) == None;
      }
    }
  }

  lemma FragmentAdded(session: u32, msgs: Msgs, l: Label, block: seq<Label>, t: Table)
    requires ValidMsgs(msgs) && IsLabel(msgs, l) && Size(msgs[l.id]) >= 2
    requires (l.id in t <==> block != []) && (l.id in t ==> PartialOk(msgs[l.id], block, t[l.id]))
    ensures var f := FrameOf(session, msgs, l);
            PartialOk(msgs[l.id], block + [l], Add(EntryFor(t, f), f.fragId, f.payload))
  {
    var f := FrameOf(session, msgs, l);
    assert PartialOk(msgs[l.id], block, EntryFor(t, f));
    PartialAdd(msgs[l.id], block, l, EntryFor(t, f));
  }

  lemma SingleFrame(session: u32, msgs: Msgs, l: Label, block: seq<Label>, t: Table)
    requires ValidMsgs(msgs) && IsLabel(msgs, l) && msgs[l.id].Count() == 1 && block == []
    ensures var o := Relay(t, FrameOf(session, msgs, l));
            o.table == t && Adds(msgs[l.id], block + [l], o.out)
  {
    var m := msgs[l.id];
    PiecesFit(m.payload);
    assert Pieces(m.payload) == [m.payload];
    HasSnoc([], l);
  }

  lemma OtherFrame(session: u32, msgs: Msgs, ls: seq<Label>, l: Label, t: Table, p: u16)
    requires ValidMsgs(msgs) && IsLabel(msgs, l) && p in msgs && p != l.id && SlotAfter(msgs, ls, t, p)
    ensures SlotAfter(msgs, ls + [l], Relay(t, FrameOf(session, msgs, l)).table, p)
  {
    RecentOther(msgs, ls, l, p);
  }

  // ---- Runs ----

  lemma FramesEnd(session: u32, msgs: Msgs, ls: seq<Label>)
    requires ValidMsgs(msgs) && AllLabels(msgs, ls) && |ls| > 0
    ensures var n := |ls| - 1;
            && ls == ls[..n] + [ls[n]] && IsLabel(msgs, ls[n]) && AllLabels(msgs, ls[..n])
            && |Frames(session, msgs, ls)| == n + 1
            && Frames(session, msgs, ls)[..n] == Frames(session, msgs, ls[..n])
            && Frames(session, msgs, ls)[n] == FrameOf(session, msgs, ls[n])
  {
    assert ls[|ls| - 1] in ls;
  }

  ghost predicate TableAfter(msgs: Msgs, ls: seq<Label>, t: Table)
    requires ValidMsgs(msgs)
  {
    (forall p :: p in t ==> p in msgs) && (forall p :: p in msgs ==> SlotAfter(msgs, ls, t, p))
  }

  ghost predicate Outputs(msgs: Msgs, cs: seq<Completion>, out: seq<Datagram>) {
    && |out| == |cs|
    && forall k :: 0 <= k < |cs| ==> cs[k].id in msgs && EmittedAs(msgs[cs[k].id], cs[k].block, out[k])
  }

  lemma TableFrame(session: u32, msgs: Msgs, ls: seq<Label>, l: Label, t: Table)
    requires ValidMsgs(msgs) && IsLabel(msgs, l) && TableAfter(msgs, ls, t)
    ensures TableAfter(msgs, ls + [l], Relay(t, FrameOf(session, msgs, l)).table)
  {
    forall p | p in msgs
      ensures SlotAfter(msgs, ls + [l], Relay(t, FrameOf(session, msgs, l)).table, p)
    {
      assert SlotAfter(msgs, ls, t, p);
      if p == l.id {
        OwnFrame(session, msgs, ls, l, t);
      } else {
        OtherFrame(session, msgs, ls, l, t, p);
      }
    }
  }

  lemma OutputFrame(msgs: Msgs, ls: seq<Label>, l: Label, out: seq<Datagram>, more: seq<Datagram>)
    requires ValidMsgs(msgs) && AllLabels(msgs, ls) && IsLabel(msgs, l) && AllLabels(msgs, ls + [l])
    requires Outputs(msgs, Completions(msgs, ls), out) && Adds(msgs[l.id], Recent(msgs, ls, l.id) + [l], more)
    ensures Outputs(msgs, Completions(msgs, ls + [l]), out + more)
  {
    RecentSnoc(msgs, ls, l);
    assert (ls + [l])[..|ls|] == ls;
  }

  /** The table holds what each packet has had since it was last emitted, and the output is one datagram for each time a
      packet's count was reached. */
  ghost predicate StateAfter(msgs: Msgs, ls: seq<Label>, o: Outcome) {
    && ValidMsgs(msgs) && AllLabels(msgs, ls)
    && TableAfter(msgs, ls, o.table) && Outputs(msgs, Completions(msgs, ls), o.out)
  }

  /** After any frames of any valid packets, duplicates and interleavings included. */
  lemma {:induction false} RunWithDuplicates(session: u32, msgs: Msgs, ls: seq<Label>)
    requires ValidMsgs(msgs) && AllLabels(msgs, ls)
    ensures StateAfter(msgs, ls, RunFrames(Frames(session, msgs, ls)))
  {
    if |ls| == 0 {
      NoFrames(session, msgs, ls);
    } else {
      var n := |ls| - 1;
      var before, l := ls[..n], ls[n];
      FramesEnd(session, msgs, ls);
      RunWithDuplicates(session, msgs, before);
      OneMoreFrame(session, msgs, before, l, RunFrames(Frames(session, msgs, before)));
      LastFrame(Frames(session, msgs, ls), Frames(session, msgs, before), FrameOf(session, msgs, l));
    }
  }

  lemma NoFrames(session: u32, msgs: Msgs, ls: seq<Label>)
    requires ValidMsgs(msgs) && ls == []
    ensures StateAfter(msgs, ls, RunFrames(Frames(session, msgs, ls)))
  {
    NothingRun(Frames(session, msgs, ls));
    NothingCompleted(msgs, ls);
    NoSlots(msgs, ls);
  }

  lemma NothingRun(fs: seq<UdpFrame>)
    requires fs == []
    ensures RunFrames(fs) == Outcome(map[], [])
  {
  }

  lemma NoSlots(msgs: Msgs, ls: seq<Label>)
    requires ValidMsgs(msgs) && ls == []
    ensures TableAfter(msgs, ls, map[])
  {
    forall p | p in msgs
      ensures SlotAfter(msgs, ls, map[], p)
    {
      NoSlot(msgs, ls, p);
    }
  }

  lemma NothingCompleted(msgs: Msgs, ls: seq<Label>)
    requires ValidMsgs(msgs) && ls == []
    ensures AllLabels(msgs, ls) && Completions(msgs, ls) == []
  {
  }

  lemma NoSlot(msgs: Msgs, ls: seq<Label>, p: u16)
    requires ValidMsgs(msgs) && p in msgs && ls == []
    ensures SlotAfter(msgs, ls, map[], p)
  {
    assert Of(ls, p) == [];
    assert |Recent(msgs, ls, p)| == 0;
  }

  lemma LastFrame(fs: seq<UdpFrame>, before: seq<UdpFrame>, f: UdpFrame)
    requires |fs| > 0 && fs[..|fs| - 1] == before && fs[|fs| - 1] == f
    ensures var o := RunFrames(before); var s := Relay(o.table, f);
            RunFrames(fs) == Outcome(s.table, o.out + s.out)
  {
  }

  lemma OneMoreFrame(session: u32, msgs: Msgs, ls: seq<Label>, l: Label, o: Outcome)
    requires StateAfter(msgs, ls, o) && IsLabel(msgs, l)
    ensures var s := Relay(o.table, FrameOf(session, msgs, l));
            StateAfter(msgs, ls + [l], Outcome(s.table, o.out + s.out))
  {
    assert AllLabels(msgs, ls + [l]);
    TableFrame(session, msgs, ls, l, o.table);
    assert SlotAfter(msgs, ls, o.table, l.id);
    OwnFrame(session, msgs, ls, l, o.table);
    OutputFrame(msgs, ls, l, o.out, Relay(o.table, FrameOf(session, msgs, l)).out);
  }

  /** The table ends empty exactly when every packet has had a multiple of its number of fragments, duplicates
      counted. */
  lemma TableEmptyIff(session: u32, msgs: Msgs, ls: seq<Label>)
    requires ValidMsgs(msgs) && AllLabels(msgs, ls)
    ensures RunFrames(Frames(session, msgs, ls)).table == map[]
       <==> forall p :: p in msgs ==> |Of(ls, p)| % Size(msgs[p]) == 0
  {
    RunWithDuplicates(session, msgs, ls);
    var t := RunFrames(Frames(session, msgs, ls)).table;
    forall p | p in msgs
      ensures p in t <==> |Of(ls, p)| % Size(msgs[p]) != 0
    {
      assert SlotAfter(msgs, ls, t, p);
      RecentEmpty(msgs, ls, p);
    }
    if forall p :: p in msgs ==> |Of(ls, p)| % Size(msgs[p]) == 0 {
      assert t == map[];
    }
  }

  /** The packets come out in the order in which their counts are reached, each unchanged exactly when the
      frames counted for it are all its fragments. */
  lemma EmittedIff(session: u32, msgs: Msgs, ls: seq<Label>)
    requires ValidMsgs(msgs) && AllLabels(msgs, ls)
    ensures var cs, out := Completions(msgs, ls), RunFrames(Frames(session, msgs, ls)).out;
            && |out| == |cs|
            && forall k :: 0 <= k < |cs| ==> cs[k].id in msgs && EmittedAs(msgs[cs[k].id], cs[k].block, out[k])
  {
    RunWithDuplicates(session, msgs, ls);
  }
}
