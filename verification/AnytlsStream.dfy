/** The reading end of an AnyTLS stream, and what a session delivers to it (src/anytls/session.rs). */
module AnytlsStream {
  import opened Bytes
  import opened AnytlsSession
  import opened AnytlsReplies

  // ---- StreamConn ----

  /** `rx` is what the stream's channel still holds, its sender being gone after that. */
  datatype Conn = Conn(rx: seq<Bytes>, buf: Bytes)

  datatype ConnRead = ConnRead(c: Conn, got: Bytes)

  /** `read` into `n` bytes; no bytes means end of stream. */
  function ReadOf(c: Conn, n: nat): ConnRead {
    if |c.buf| > 0 then
      var m := Min(|c.buf|, n);
      ConnRead(c.(buf := c.buf[m..]), c.buf[..m])
    else if |c.rx| == 0 then ConnRead(c, [])
    else if |c.rx[0]| == 0 then ConnRead(c.(rx := c.rx[1..]), [])
    else
      var m := Min(|c.rx[0]|, n);
      ConnRead(Conn(c.rx[1..], c.rx[0][m..]), c.rx[0][..m])
  }

  datatype ExactRead = ExactRead(c: Conn, got: Option<Bytes>)

  function Behind(head: Bytes, e: ExactRead): ExactRead {
    if e.got.None? then e else e.(got := Some(head + e.got.value))
  }

  /** `read_exact_from`: `None` is the unexpected end of the stream. */
  function ExactOf(c: Conn, n: nat): ExactRead
    decreases n
  {
    if n == 0 then ExactRead(c, Some([]))
    else
      var r := ReadOf(c, n);
      if |r.got| == 0 || |r.got| > n then ExactRead(r.c, None)
      else Behind(r.got, ExactOf(r.c, n - |r.got|))
  }

  lemma ExactAfterRead(c: Conn, n: nat)
    requires n > 0
    ensures var r := ReadOf(c, n);
            && |r.got| <= n
            && ExactOf(c, n) == if r.got == [] then ExactRead(r.c, None) else Behind(r.got, ExactOf(r.c, n - |r.got|))
  {
  }

  lemma BehindTwice(a: Bytes, b: Bytes, e: ExactRead)
    ensures Behind(a, Behind(b, e)) == Behind(a + b, e)
  {
    if e.got.Some? {
      Assoc(a, b, e.got.value);
    }
  }

  /** One pass of the loop: `dst` is what has been read so far. */
  lemma ExactOnwards(dst: Bytes, c: Conn, n: nat)
    requires n > 0
    ensures var r := ReadOf(c, n);
            && |r.got| <= n
            && Behind(dst, ExactOf(c, n))
               == if r.got == [] then ExactRead(r.c, None) else Behind(dst + r.got, ExactOf(r.c, n - |r.got|))
  {
    ExactAfterRead(c, n);
    var r := ReadOf(c, n);
    BehindTwice(dst, r.got, ExactOf(r.c, n - |r.got|));
  }

  function PshFrame(sid: u32, data: Bytes): Frame { Frame(2, sid, data) }
  function FinFrame(sid: u32): Frame { Frame(3, sid, []) }

  class StreamConn {
    const streamId: u32
    var rx: seq<Bytes>
    var buf: Bytes
    /** Frames handed to the writer task. */
    var writeTx: seq<Frame>

    ghost function View(): Conn
      reads this
    {
      Conn(rx, buf)
    }

    constructor (streamId: u32, rx: seq<Bytes>)
      ensures View() == Conn(rx, []) && writeTx == [] && this.streamId == streamId
    {
      this.streamId, this.rx, this.buf, this.writeTx := streamId, rx, [], [];
    }

    method Read(n: nat) returns (got: Bytes)
      modifies this`rx, this`buf
      ensures ReadOf(old(View()), n) == ConnRead(View(), got)
    {
      while true
        invariant ReadOf(View(), n) == ReadOf(old(View()), n)
        decreases |rx|
      {
        if |buf| > 0 {
          var m := Min(|buf|, n);
          got := buf[..m];
          buf := buf[m..];
          return;
        }
        if |rx| == 0 {
          return [];
        }
        var data := rx[0];
        rx := rx[1..];
        if |data| == 0 {
          return [];
        }
        buf := buf + data;
        assert [] + data == data;
      }
    }

    method ReadExactFrom(n: nat) returns (got: Option<Bytes>)
      modifies this`rx, this`buf
      ensures ExactOf(old(View()), n) == ExactRead(View(), got)
    {
      var dst: Bytes := [];
      ghost var all := ExactOf(View(), n);
      assert all.got.Some? ==> [] + all.got.value == all.got.value;
      while |dst| < n
        invariant |dst| <= n
        invariant Behind(dst, ExactOf(View(), n - |dst|)) == all
      {
        ExactOnwards(dst, View(), n - |dst|);
        var part := Read(n - |dst|);
        if |part| == 0 {
          return None;
        }
        dst := dst + part;
      }
      assert dst + [] == dst;
      got := Some(dst);
    }

    /** A PSH frame with the data, and the number of bytes taken. */
    method Write(data: Bytes) returns (n: nat)
      modifies this`writeTx
      ensures writeTx == old(writeTx) + [PshFrame(streamId, data)] && n == |data|
    {
      writeTx := writeTx + [Frame(CMD_PSH, streamId, data)];
      n := |data|;
    }

    method Close()
      modifies this`writeTx
      ensures writeTx == old(writeTx) + [FinFrame(streamId)]
    {
      writeTx := writeTx + [Frame(CMD_FIN, streamId, [])];
    }
  }

  // ---- What a reader gets out of a channel ----

  /** The bytes in front of the first empty item: what a reader can get before it is told the stream has ended. */
  function Upto(items: seq<Bytes>): Bytes {
    if |items| == 0 || |items[0]| == 0 then [] else items[0] + Upto(items[1..])
  }

  function Remaining(c: Conn): Bytes {
    c.buf + Upto(c.rx)
  }

  lemma Split(b: Bytes, m: nat, more: Bytes)
    requires m <= |b|
    ensures b[..m] + (b[m..] + more) == b + more
  {
  }

  /** A read returns the next bytes, and none exactly when there are none left or there is no room. */
  lemma ReadTakes(c: Conn, n: nat)
    ensures var r := ReadOf(c, n);
            && |r.got| <= n && (r.got == [] <==> n == 0 || Remaining(c) == [])
            && (Remaining(c) != [] ==> r.got + Remaining(r.c) == Remaining(c))
  {
    if |c.buf| > 0 {
      Split(c.buf, Min(|c.buf|, n), Upto(c.rx));
    } else if |c.rx| > 0 && |c.rx[0]| > 0 {
      Split(c.rx[0], Min(|c.rx[0]|, n), Upto(c.rx[1..]));
      assert [] + Upto(c.rx) == Upto(c.rx);
    }
  }

  /** `read_exact_from` succeeds exactly when that many bytes are left, returns them, and takes no more. */
  lemma {:induction false} ExactIff(c: Conn, n: nat)
    ensures var e := ExactOf(c, n);
            && (e.got.Some? <==> n <= |Remaining(c)|)
            && (e.got.Some? ==> e.got.value == Remaining(c)[..n] && Remaining(e.c) == Remaining(c)[n..])
    decreases n
  {
    if n > 0 {
      ReadTakes(c, n);
      var r := ReadOf(c, n);
      if r.got != [] {
        ExactIff(r.c, n - |r.got|);
        ExactOnward(Remaining(c), r.got, Remaining(r.c), n);
      }
    } else {
      assert Remaining(c)[..0] == [] && Remaining(c)[0..] == Remaining(c);
    }
  }

  lemma ExactOnward(all: Bytes, got: Bytes, rest: Bytes, n: nat)
    requires all == got + rest && |got| <= n
    ensures n - |got| <= |rest| <==> n <= |all|
    ensures n <= |all| ==> got + rest[..n - |got|] == all[..n] && rest[n - |got|..] == all[n..]
  {
  }

  /** A call on the stream: a read into a buffer, or an exact read. */
  datatype Call = Read(n: nat) | Exact(n: nat)

  /** The bytes a series of calls returns; a failed exact read ends the series. */
  function Returned(c: Conn, calls: seq<Call>): Bytes
    decreases |calls|
  {
    if |calls| == 0 then []
    else
      match calls[0]
      case Read(n) => ReadOf(c, n).got + Returned(ReadOf(c, n).c, calls[1..])
      case Exact(n) =>
        var e := ExactOf(c, n);
        if e.got.None? then [] else e.got.value + Returned(e.c, calls[1..])
  }

  ghost predicate NonEmptyReads(calls: seq<Call>) {
    forall x :: x in calls ==> x.Read? && x.n > 0
  }

  /** Calls of both kinds return a prefix of what is left until it is used up; enough non-empty reads return all
      of it. */
  lemma {:induction false} CallsInOrder(c: Conn, calls: seq<Call>)
    ensures Returned(c, calls) <= Remaining(c) || Remaining(c) <= Returned(c, calls)
    ensures NonEmptyReads(calls) && |calls| >= |Remaining(c)| ==> Remaining(c) <= Returned(c, calls)
    decreases |calls|
  {
    if |calls| > 0 && Remaining(c) != [] {
      assert calls[0] in calls && forall x :: x in calls[1..] ==> x in calls;
      var n := calls[0].n;
      if calls[0].Read? {
        var r := ReadOf(c, n);
        ReadTakes(c, n);
        CallsInOrder(r.c, calls[1..]);
        PrefixOnward(r.got, Remaining(r.c), Returned(r.c, calls[1..]));
      } else {
        ExactCallInOrder(c, n, calls);
      }
    }
  }

  lemma ExactTakes(c: Conn, n: nat)
    requires ExactOf(c, n).got.Some?
    ensures ExactOf(c, n).got.value + Remaining(ExactOf(c, n).c) == Remaining(c)
  {
    ExactIff(c, n);
    var all := Remaining(c);
    assert all[..n] + all[n..] == all;
  }

  lemma ExactCallInOrder(c: Conn, n: nat, calls: seq<Call>)
    requires |calls| > 0 && calls[0] == Exact(n)
    ensures Returned(c, calls) <= Remaining(c) || Remaining(c) <= Returned(c, calls)
    decreases |calls|, 0
  {
    var e := ExactOf(c, n);
    if e.got.Some? {
      ExactTakes(c, n);
      CallsInOrder(e.c, calls[1..]);
      PrefixOnward(e.got.value, Remaining(e.c), Returned(e.c, calls[1..]));
    }
  }

  lemma PrefixOnward(got: Bytes, a: Bytes, b: Bytes)
    ensures (a <= b <==> got + a <= got + b) && (b <= a <==> got + b <= got + a)
  {
    assert (got + a)[|got|..] == a && (got + b)[|got|..] == b;
    if got + a <= got + b {
      assert (got + b)[..|got + a|][|got|..] == b[..|a|];
    }
    if got + b <= got + a {
      assert (got + a)[..|got + b|][|got|..] == a[..|b|];
    }
  }

  /** Everything the channel holds, whatever empty items are among it. */
  function AllOf(c: Conn): Bytes {
    c.buf + Concat(c.rx)
  }

  lemma ReadFromAll(c: Conn, n: nat)
    ensures ReadOf(c, n).got + AllOf(ReadOf(c, n).c) == AllOf(c)
  {
    if |c.buf| > 0 {
      Split(c.buf, Min(|c.buf|, n), Concat(c.rx));
    } else if |c.rx| > 0 {
      Split(c.rx[0], Min(|c.rx[0]|, n), Concat(c.rx[1..]));
      assert [] + Concat(c.rx) == Concat(c.rx);
    }
  }

  lemma {:induction false} ExactFromAll(c: Conn, n: nat)
    requires ExactOf(c, n).got.Some?
    ensures ExactOf(c, n).got.value + AllOf(ExactOf(c, n).c) == AllOf(c)
    decreases n
  {
    if n > 0 {
      var r := ReadOf(c, n);
      ReadFromAll(c, n);
      ExactFromAll(r.c, n - |r.got|);
      var e := ExactOf(r.c, n - |r.got|);
      Assoc(r.got, e.got.value, AllOf(e.c));
    } else {
      assert [] + AllOf(c) == AllOf(c);
    }
  }

  /** Even past end markers no call ever returns a byte out of order or a byte that was not in the channel. */
  lemma {:induction false} NeverBeyond(c: Conn, calls: seq<Call>)
    ensures Returned(c, calls) <= AllOf(c)
    decreases |calls|
  {
    if |calls| == 0 {
    } else {
      var n := calls[0].n;
      if calls[0].Read? {
        var r := ReadOf(c, n);
        ReadFromAll(c, n);
        NeverBeyond(r.c, calls[1..]);
        PrefixOnward(r.got, Returned(r.c, calls[1..]), AllOf(r.c));
      } else if ExactOf(c, n).got.Some? {
        var e := ExactOf(c, n);
        ExactFromAll(c, n);
        NeverBeyond(e.c, calls[1..]);
        PrefixOnward(e.got.value, Returned(e.c, calls[1..]), AllOf(e.c));
      }
    }
  }

  /** All the bytes of the items are read before the end exactly when nothing but empty items follows an empty one. */
  lemma {:induction false} UptoIsAllIff(items: seq<Bytes>)
    ensures Upto(items) == Concat(items) <==> forall i, j :: 0 <= i < j < |items| && items[i] == [] ==> items[j] == []
  {
    if |items| == 0 {
    } else {
      if items[0] == [] {
        AllEmpty(items);
      } else {
        UptoIsAllIff(items[1..]);
        Cancel(items[0], Upto(items[1..]), Concat(items[1..]));
        Shifted(items);
      }
    }
  }

  lemma Cancel(a: Bytes, b: Bytes, c: Bytes)
    ensures a + b == a + c <==> b == c
  {
    assert (a + b)[|a|..] == b && (a + c)[|a|..] == c;
  }

  ghost predicate EmptyTail(items: seq<Bytes>) {
    forall i, j :: 0 <= i < j < |items| && items[i] == [] ==> items[j] == []
  }

  lemma Shifted(items: seq<Bytes>)
    requires |items| > 0 && items[0] != []
    ensures EmptyTail(items) <==> EmptyTail(items[1..])
  {
    var t := items[1..];
    if EmptyTail(t) {
      forall i, j | 0 <= i < j < |items| && items[i] == []
        ensures items[j] == []
      {
        assert t[i - 1] == items[i] && t[j - 1] == items[j];
      }
    }
  }

  lemma {:induction false} AllEmpty(items: seq<Bytes>)
    ensures Concat(items) == [] <==> forall j :: 0 <= j < |items| ==> items[j] == []
  {
    if |items| == 0 {
    } else {
      AllEmpty(items[1..]);
      var t := items[1..];
      if Concat(items) == [] {
        assert |items[0]| == 0 && |Concat(t)| == 0;
        assert forall j :: 1 <= j < |items| ==> items[j] == t[j - 1];
      }
    }
  }

  // ---- What the session puts into a channel ----

  /** The items for stream `sid` among the frames that follow its SYN: its payloads, then the end marker.
      A second SYN for the id ends the stream without a marker. The commands stand by their numbers on the wire: 1 is
      SYN, 2 PSH, 3 FIN and 5 an alert. */
  function Payloads(frames: seq<Frame>, sid: u32): seq<Bytes> {
    if |frames| == 0 || frames[0].cmd == 5 then [[]]
    else if frames[0].sid != sid then Payloads(frames[1..], sid)
    else if frames[0].cmd == 3 then [[]]
    else if frames[0].cmd == 1 then []
    else if frames[0].cmd == 2 then [frames[0].data] + Payloads(frames[1..], sid)
    else Payloads(frames[1..], sid)
  }

  /** The same for channel `k`, whose receiver may be dropped: nothing is put into it from then on. */
  function Delivered(env: Env, k: nat, i: nat, frames: seq<Frame>, sid: u32): seq<Bytes>
    decreases |frames|
  {
    if |frames| == 0 then Marker(env, k, i)
    else if frames[0].cmd == 5 then Marker(env, k, i + 1)
    else if frames[0].sid != sid then Delivered(env, k, i + 1, frames[1..], sid)
    else if frames[0].cmd == 3 then Marker(env, k, i)
    else if frames[0].cmd == 1 then []
    else if frames[0].cmd == 2 then
      if env.gone(k, i) then [] else [frames[0].data] + Delivered(env, k, i + 1, frames[1..], sid)
    else Delivered(env, k, i + 1, frames[1..], sid)
  }

  function Marker(env: Env, k: nat, i: nat): seq<Bytes> {
    if env.gone(k, i) then [] else [[]]
  }

  /** A dropped receiver cuts the items short, and changes nothing else. */
  lemma {:induction false} DeliveredCutsPayloads(env: Env, k: nat, i: nat, frames: seq<Frame>, sid: u32)
    ensures Delivered(env, k, i, frames, sid) <= Payloads(frames, sid)
    ensures StaysOpen(env, k) ==> Delivered(env, k, i, frames, sid) == Payloads(frames, sid)
    decreases |frames|
  {
    if |frames| == 0 {
    } else {
      DeliveredCutsPayloads(env, k, i + 1, frames[1..], sid);
    }
  }

  ghost predicate StaysOpen(env: Env, k: nat) {
    forall i :: !env.gone(k, i)
  }

  function Finish(env: Env, s: State, i: nat, frames: seq<Frame>): seq<Chan> {
    Drained(env, Consumed(env, s, i, frames), Loop(env, s, i, frames).chans)
  }

  lemma HandleOther(env: Env, s: State, i: nat, f: Frame, k: nat)
    requires Inv(s) && k < |s.chans|
    requires s.chans[k].closed || f.sid != s.chans[k].sid || f.cmd !in {1, 2, 3}
    ensures k < |Handle(env, s, i, f).chans| && Handle(env, s, i, f).chans[k] == s.chans[k]
  {
  }

  lemma {:induction false} ClosedStays(env: Env, s: State, i: nat, frames: seq<Frame>, k: nat)
    requires Inv(s) && k < |s.chans| && s.chans[k].closed
    ensures k < |Finish(env, s, i, frames)| && Finish(env, s, i, frames)[k] == s.chans[k]
    decreases |frames|
  {
    if !s.stopped && |frames| > 0 {
      HandleOther(env, s, i, frames[0], k);
      HandleKeepsInv(env, s, i, frames[0]);
      ClosedStays(env, Handle(env, s, i, frames[0]), i + 1, frames[1..], k);
    }
  }

  /** From any point of a session on: an open channel gets exactly the items for its own stream. */
  lemma {:induction false} ChannelGets(env: Env, s: State, i: nat, frames: seq<Frame>, k: nat)
    requires Inv(s) && s.settled && !s.stopped && k < |s.chans| && !s.chans[k].closed
    ensures k < |Finish(env, s, i, frames)|
    ensures Finish(env, s, i, frames)[k] == Gets(env, s.chans[k], k, i, frames)
    decreases |frames|
  {
    if |frames| == 0 {
      assert s.chans[k].items + [] == s.chans[k].items;
    } else {
      var f := frames[0];
      var t := Handle(env, s, i, f);
      HandleKeepsInv(env, s, i, f);
      if f.cmd == 5 {
        AlertEnds(env, s, i, frames, k);
      } else if f.sid == s.chans[k].sid && f.cmd in {3, 1, 2} {
        OwnFrame(env, s, i, f, k);
        if t.chans[k].closed {
          ClosedStays(env, t, i + 1, frames[1..], k);
        } else {
          ChannelGets(env, t, i + 1, frames[1..], k);
          Assoc(s.chans[k].items, [f.data], Delivered(env, k, i + 1, frames[1..], f.sid));
        }
      } else {
        HandleOther(env, s, i, f, k);
        ChannelGets(env, t, i + 1, frames[1..], k);
      }
    }
  }

  lemma AlertEnds(env: Env, s: State, i: nat, frames: seq<Frame>, k: nat)
    requires |frames| > 0 && frames[0].cmd == 5 && !s.stopped && k < |s.chans| && !s.chans[k].closed
    ensures k < |Finish(env, s, i, frames)|
    ensures Finish(env, s, i, frames)[k] == Gets(env, s.chans[k], k, i, frames)
  {
    var t := Handle(env, s, i, frames[0]);
    assert Loop(env, t, i + 1, frames[1..]) == t && Consumed(env, t, i + 1, frames[1..]) == i + 1;
    assert s.chans[k].items + [] == s.chans[k].items;
  }

  function Gets(env: Env, c: Chan, k: nat, i: nat, frames: seq<Frame>): Chan {
    Chan(c.sid, c.items + Delivered(env, k, i, frames, c.sid), true)
  }

  /** A frame for the channel's own stream. */
  lemma OwnFrame(env: Env, s: State, i: nat, f: Frame, k: nat)
    requires Inv(s) && s.settled && !s.stopped && k < |s.chans| && !s.chans[k].closed && f.sid == s.chans[k].sid
    requires f.cmd in {3, 1, 2}
    ensures var t, c := Handle(env, s, i, f), s.chans[k];
            && k < |t.chans| && t.settled && !t.stopped
            && t.chans[k] == if f.cmd == 3 then Chan(c.sid, c.items + Marker(env, k, i), true)
                             else if f.cmd == 1 then Chan(c.sid, c.items + [], true)
                             else if env.gone(k, i) then Chan(c.sid, c.items + [], true)
                             else Chan(c.sid, c.items + [f.data], false)
  {
    assert s.chans[k].items + [] == s.chans[k].items;
  }

  lemma {:induction false} LoopSplits(env: Env, s: State, i: nat, a: seq<Frame>, b: seq<Frame>)
    ensures Loop(env, s, i, a + b) == Loop(env, Loop(env, s, i, a), i + |a|, b)
    ensures !Loop(env, s, i, a).stopped ==>
              Consumed(env, s, i, a + b) == Consumed(env, Loop(env, s, i, a), i + |a|, b)
    ensures Inv(s) ==> Inv(Loop(env, s, i, a))
    decreases |a|
  {
    if s.stopped || |a| == 0 {
      assert |a| == 0 ==> a + b == b;
    } else {
      assert (a + b)[1..] == a[1..] + b;
      if Inv(s) {
        HandleKeepsInv(env, s, i, a[0]);
      }
      LoopSplits(env, Handle(env, s, i, a[0]), i + 1, a[1..], b);
    }
  }

  /** Every accepted SYN opens a channel that gets exactly the payloads for its id up to FIN, a second SYN or the end,
      whatever the other streams do, cut short only if its receiver is dropped; at the end its sender is gone. */
  lemma StreamGetsItsPayloads(env: Env, before: seq<Frame>, sid: u32, data: Bytes, after: seq<Frame>)
    requires HasSettings(before) && GoesOn(before)
    ensures var k := |Loop(env, START, 0, before).chans|;
            var end := Session(env, before + ([Frame(1, sid, data)] + after));
            && k < |end.chans| && end.chans[k] == Chan(sid, Delivered(env, k, |before| + 1, after, sid), true)
            && end.chans[k].items <= Payloads(after, sid)
            && (StaysOpen(env, k) ==> end.chans[k].items == Payloads(after, sid))
  {
    AcceptsIff(env, before);
    OpenedStreamGets(env, before, sid, data, after);
  }

  lemma OpenedStreamGets(env: Env, before: seq<Frame>, sid: u32, data: Bytes, after: seq<Frame>)
    requires var s := Loop(env, START, 0, before); s.settled && !s.stopped
    ensures var k := |Loop(env, START, 0, before).chans|;
            var end := Session(env, before + ([Frame(1, sid, data)] + after));
            && k < |end.chans| && end.chans[k] == Chan(sid, Delivered(env, k, |before| + 1, after, sid), true)
            && end.chans[k].items <= Payloads(after, sid)
            && (StaysOpen(env, k) ==> end.chans[k].items == Payloads(after, sid))
  {
    var s := Loop(env, START, 0, before);
    var syn := Frame(1, sid, data);
    SessionSplits(env, before, [syn] + after);
    SynOpens(env, s, |before|, syn, after);
    DeliveredCutsPayloads(env, |s.chans|, |before| + 1, after, sid);
  }

  lemma SessionSplits(env: Env, before: seq<Frame>, rest: seq<Frame>)
    requires !Loop(env, START, 0, before).stopped
    ensures var s := Loop(env, START, 0, before);
            Inv(s) && Session(env, before + rest).chans == Finish(env, s, |before|, rest)
  {
    LoopSplits(env, START, 0, before, rest);
  }

  lemma SynOpens(env: Env, s: State, i: nat, syn: Frame, after: seq<Frame>)
    requires Inv(s) && s.settled && !s.stopped && syn.cmd == 1
    ensures var k := |s.chans|; var end := Finish(env, s, i, [syn] + after);
            k < |end| && end[k] == Chan(syn.sid, Delivered(env, k, i + 1, after, syn.sid), true)
  {
    assert ([syn] + after)[1..] == after;
    HandleKeepsInv(env, s, i, syn);
    ChannelGets(env, Handle(env, s, i, syn), i + 1, after, |s.chans|);
    var items := Delivered(env, |s.chans|, i + 1, after, syn.sid);
    assert [] + items == items;
  }

  /** No stream exists before settings have arrived. */
  lemma NothingBeforeSettings(env: Env, frames: seq<Frame>)
    ensures var s := Loop(env, START, 0, frames);
            !s.settled || !HasSettings(frames) ==> s.table == map[] && s.chans == []
  {
    LoopSplits(env, START, 0, frames, []);
    var used := LoopMatches(env, [], START, 0, frames);
    assert [] + used == used && forall f :: f in used ==> f in frames;
  }

  /** Payloads of a stream without empty PSH frames are read completely before the reader sees the end. */
  lemma {:induction false} NonEmptyPayloads(frames: seq<Frame>, sid: u32)
    requires NoEmptyPsh(frames, sid)
    ensures Upto(Payloads(frames, sid)) == Concat(Payloads(frames, sid))
  {
    if |frames| == 0 || frames[0].cmd == 5 || (frames[0].sid == sid && frames[0].cmd == 3) {
      var marker: seq<Bytes> := [[]];
      ConsItem([], []);
      assert marker + [] == marker && Payloads(frames, sid) == marker;
    } else if frames[0].sid == sid && frames[0].cmd == 1 {
      assert Upto(Payloads(frames, sid)) == [] == Concat(Payloads(frames, sid));
    } else {
      assert forall f :: f in frames[1..] ==> f in frames;
      assert frames[0] in frames;
      NonEmptyPayloads(frames[1..], sid);
      ConsItem(frames[0].data, Payloads(frames[1..], sid));
    }
  }

  /** What `write` calls with these data, and then `close`, hand to the writer task. */
  function Written(sid: u32, ds: seq<Bytes>): seq<Frame> {
    if |ds| == 0 then [FinFrame(sid)] else [PshFrame(sid, ds[0])] + Written(sid, ds[1..])
  }

  /** What one end writes and closes is what a session at the other end puts into that stream's channel, the end marker
      behind it. */
  lemma {:induction false} WrittenIsDelivered(sid: u32, ds: seq<Bytes>)
    ensures Payloads(Written(sid, ds), sid) == ds + [[]]
    ensures PshData(Written(sid, ds), sid) == Concat(ds)
  {
    if |ds| == 0 {
      assert ds + [[]] == [[]];
    } else {
      WrittenIsDelivered(sid, ds[1..]);
      assert Written(sid, ds)[1..] == Written(sid, ds[1..]);
      assert ds + [[]] == [ds[0]] + (ds[1..] + [[]]);
    }
  }

  /** The data of the PSH frames for `sid` before its FIN, its second SYN or the end of the session. */
  function PshData(frames: seq<Frame>, sid: u32): Bytes {
    if |frames| == 0 || frames[0].cmd == 5 then []
    else if frames[0].sid == sid && frames[0].cmd in {3, 1} then []
    else (if frames[0].sid == sid && frames[0].cmd == 2 then frames[0].data else []) + PshData(frames[1..], sid)
  }

  lemma {:induction false} PayloadBytes(frames: seq<Frame>, sid: u32)
    ensures Concat(Payloads(frames, sid)) == PshData(frames, sid)
  {
    if |frames| == 0 || frames[0].cmd == 5 || (frames[0].sid == sid && frames[0].cmd == 3) {
      var marker: seq<Bytes> := [[]];
      ConsItem([], []);
      assert marker + [] == marker && Payloads(frames, sid) == marker;
    } else if !(frames[0].sid == sid && frames[0].cmd == 1) {
      PayloadBytes(frames[1..], sid);
      if frames[0].sid == sid && frames[0].cmd == 2 {
        ConsItem(frames[0].data, Payloads(frames[1..], sid));
      } else {
        assert [] + PshData(frames[1..], sid) == PshData(frames[1..], sid);
      }
    }
  }

  /** From the SYN to the reader: whatever the other streams do, any calls on the stream return a prefix of its
      PSH data; if its receiver is kept and no PSH frame is empty, enough non-empty reads return exactly that
      data. */
  lemma ReaderGetsPshData(env: Env, before: seq<Frame>, sid: u32, data: Bytes, after: seq<Frame>, calls: seq<Call>)
    requires HasSettings(before) && GoesOn(before)
    ensures var k := |Loop(env, START, 0, before).chans|;
            var end := Session(env, before + ([Frame(1, sid, data)] + after));
            && k < |end.chans| && Returned(Conn(end.chans[k].items, []), calls) <= PshData(after, sid)
            && (StaysOpen(env, k) && NoEmptyPsh(after, sid) ==>
                  NonEmptyReads(calls) && |calls| >= |PshData(after, sid)| ==>
                  Returned(Conn(end.chans[k].items, []), calls) == PshData(after, sid))
  {
    StreamGetsItsPayloads(env, before, sid, data, after);
    var k := |Loop(env, START, 0, before).chans|;
    ItemsReadBack(Delivered(env, k, |before| + 1, after, sid), after, sid, calls);
  }

  ghost predicate NoEmptyPsh(frames: seq<Frame>, sid: u32) {
    forall f :: f in frames && f.cmd == 2 && f.sid == sid ==> f.data != []
  }

  lemma ItemsReadBack(items: seq<Bytes>, frames: seq<Frame>, sid: u32, calls: seq<Call>)
    requires items <= Payloads(frames, sid)
    ensures var got := Returned(Conn(items, []), calls);
            && got <= PshData(frames, sid)
            && (items == Payloads(frames, sid) && NoEmptyPsh(frames, sid) ==>
                  NonEmptyReads(calls) && |calls| >= |PshData(frames, sid)| ==> got == PshData(frames, sid))
  {
    var c := Conn(items, []);
    var all := Payloads(frames, sid);
    PayloadBytes(frames, sid);
    NeverBeyond(c, calls);
    assert all == items + all[|items|..];
    ConcatAppend(items, all[|items|..]);
    assert AllOf(c) == Concat(items);
    if items == all && NoEmptyPsh(frames, sid) {
      NonEmptyPayloads(frames, sid);
      CallsInOrder(c, calls);
    }
  }

  lemma ConsItem(item: Bytes, items: seq<Bytes>)
    ensures Concat([item] + items) == item + Concat(items)
    ensures Upto([item] + items) == if item == [] then [] else item + Upto(items)
  {
    assert ([item] + items)[1..] == items;
  }

  // ---- Frames on the wire ----

  /** A frame survives the wire exactly when its data length fits in 16 bits. */
  lemma FrameRoundTripIff(f: Frame, rest: Bytes)
    ensures ParseFrame(EncodeFrame(f) + rest) == Some(Parsed(f, rest)) <==> |f.data| < 0x10000
  {
    var n := |f.data| % 0x10000;
    var d := EncodeFrame(f) + rest;
    HeaderReads(f, d, rest);
    if |f.data| < 0x10000 {
      assert d[HEADER_SIZE..HEADER_SIZE + n] == f.data && d[HEADER_SIZE + n..] == rest;
    } else {
      assert |d[HEADER_SIZE..HEADER_SIZE + n]| != |f.data|;
    }
  }

  lemma HeaderReads(f: Frame, d: Bytes, rest: Bytes)
    requires d == EncodeFrame(f) + rest
    ensures |d| >= HEADER_SIZE + |f.data| && d[0] == f.cmd && U32(d[1..5]) == f.sid
    ensures GetU16(d[5], d[6]) == |f.data| % 0x10000
  {
    assert d[1..5] == Be(f.sid, 4);
    Pow256Of4();
    FromBeInvertsBe(f.sid, 4);
    U16ReadsBack(|f.data| % 0x10000);
    assert d[5] == U16(|f.data| % 0x10000)[0] && d[6] == U16(|f.data| % 0x10000)[1];
  }

  function EncodeAll(frames: seq<Frame>): Bytes {
    if |frames| == 0 then [] else EncodeFrame(frames[0]) + EncodeAll(frames[1..])
  }

  lemma ParsesFirst(f: Frame, rest: Bytes)
    requires |f.data| < 0x10000
    ensures ParseAll(EncodeFrame(f) + rest) == [f] + ParseAll(rest)
  {
    FrameRoundTripIff(f, rest);
  }

  /** A sequence of frames parses back to itself. */
  lemma {:induction false} FramesRoundTrip(frames: seq<Frame>)
    requires forall f :: f in frames ==> |f.data| < 0x10000
    ensures ParseAll(EncodeAll(frames)) == frames
  {
    if |frames| == 0 {
    } else {
      assert frames[0] in frames && forall f :: f in frames[1..] ==> f in frames;
      ParsesFirst(frames[0], EncodeAll(frames[1..]));
      FramesRoundTrip(frames[1..]);
      assert frames == [frames[0]] + frames[1..];
    }
  }
}
