/** The shared XHTTP session table: GET and POST handlers and TTL tasks, step by step
    (src/common/transport/xhttp.rs). */
module XhttpSessions {
  import opened Bytes
  import Reorder = XhttpReorder
  import Reads = XhttpReorderProofs
  import Limits = XhttpReorderLimits

  /** An item put into a session's channel by the POST with that handler, or by no POST: the end of the stream. */
  datatype Message = Message(handler: Option<nat>, item: Reorder.UploadPacket)

  /** The TTL task of a session. `Draining` holds the lock of the table while it sends EOF to the session it removed. */
  datatype Ttl = Waiting | TimedOut | Draining(target: nat, locked: bool) | Lingering | Gone {
    /** The task has not removed anything yet. */
    predicate Live() { Waiting? || TimedOut? || Lingering? }
  }

  /** `upRx` and `downRx` tell whether the receivers are still there to be taken; `permit` is the stored notification;
      `dropped` is set once the receiving end of the upload channel is no more.
      `hist` is the reordering stream behind the channel, with all that has arrived in it and been read from it. */
  datatype Session = Session(sid: string, upRx: bool, downRx: bool, permit: bool, dropped: bool, ttl: Ttl,
                             posted: seq<Message>, hist: Reads.Hist)

  datatype Pc = GetFound | GetTaken | GetDone | Conflict | PostFound | PostCloned | PostDone {
    /** The request has let go of its session and of the sender it cloned. */
    predicate Over() { GetDone? || Conflict? || PostDone? }
  }

  /** A request that has been through `get_or_create_session`. `body` is what a POST has to send, one item for a packet
      whose body has come whole and one for each data frame of a stream up to its end or its first error; `sent` is how
      much of it has been put into the channel. */
  datatype Handler = Handler(sid: string, inst: nat, pc: Pc, body: seq<Reorder.UploadPacket>, sent: nat)

  /** `table` is the shared map; sessions stay in `insts` after they have left it; `streams` are the streams pushed. */
  datatype Server = Server(table: map<string, nat>, insts: seq<Session>, handlers: seq<Handler>, streams: seq<nat>)

  const START := Server(map[], [], [], [])

  datatype Action =
    | Get(sid: string)
    | Take(h: nat)
    | Push(h: nat)
    | Post(sid: string, body: seq<Reorder.UploadPacket>)
    | CloneTx(h: nat)
    | Send(h: nat, ok: bool)
    | EndPost(h: nat)
    | TimeOut(i: nat)
    | Notified(i: nat)
    | Expire(i: nat)
    | LockSession(i: nat)
    | SendEof(i: nat, ok: bool)
    | Cleanup(i: nat)
    | HangUp(i: nat)
    | DropRx(i: nat)
    | Read(k: nat, room: nat, r: Reorder.Poll, t: Reorder.State)

  predicate MapFree(s: Server) {
    forall i :: 0 <= i < |s.insts| ==> !s.insts[i].ttl.Draining?
  }

  predicate SessionFree(s: Server, i: nat) {
    forall j :: 0 <= j < |s.insts| ==> s.insts[j].ttl != Draining(i, true)
  }

  predicate HandlerAt(s: Server, h: nat, pc: Pc) {
    h < |s.handlers| && s.handlers[h].pc == pc && s.handlers[h].inst < |s.insts|
  }

  /** The request still has the session itself. */
  predicate Finds(s: Server, i: nat, h: nat) {
    h < |s.handlers| && s.handlers[h].inst == i && (s.handlers[h].pc.GetFound? || s.handlers[h].pc.PostFound?)
  }

  /** The session is let go of, and the receivers with it if they are still there. */
  predicate Abandoned(s: Server, i: nat) {
    && i < |s.insts| && s.insts[i].ttl.Gone? && s.insts[i].upRx
    && forall h :: 0 <= h < |s.handlers| ==> !Finds(s, i, h)
  }

  /** Nobody holds a sender of the session's channel any more. */
  predicate Silent(s: Server, i: nat) {
    && i < |s.insts| && s.insts[i].ttl.Gone?
    && forall h :: 0 <= h < |s.handlers| && s.handlers[h].inst == i ==> s.handlers[h].pc.Over()
  }

  ghost predicate Enabled(s: Server, a: Action) {
    match a
    case Get(sid) => MapFree(s)
    case Take(h) => HandlerAt(s, h, GetFound) && SessionFree(s, s.handlers[h].inst)
    case Push(h) => HandlerAt(s, h, GetTaken)
    case Post(sid, body) => MapFree(s)
    case CloneTx(h) => HandlerAt(s, h, PostFound) && SessionFree(s, s.handlers[h].inst)
    case Send(h, ok) =>
      && HandlerAt(s, h, PostCloned) && s.handlers[h].sent < |s.handlers[h].body|
      && ok == !s.insts[s.handlers[h].inst].dropped
    case EndPost(h) => HandlerAt(s, h, PostCloned) && s.handlers[h].sent == |s.handlers[h].body|
    case TimeOut(i) => i < |s.insts| && s.insts[i].ttl.Waiting? && !s.insts[i].permit
    case Notified(i) => i < |s.insts| && s.insts[i].ttl.Waiting? && s.insts[i].permit
    case Expire(i) => i < |s.insts| && s.insts[i].ttl.TimedOut? && MapFree(s)
    case LockSession(i) =>
      i < |s.insts| && s.insts[i].ttl.Draining? && !s.insts[i].ttl.locked && SessionFree(s, s.insts[i].ttl.target)
    case SendEof(i, ok) =>
      && i < |s.insts| && s.insts[i].ttl.Draining? && s.insts[i].ttl.locked && s.insts[i].ttl.target < |s.insts|
      && ok == !s.insts[s.insts[i].ttl.target].dropped
    case Cleanup(i) => i < |s.insts| && s.insts[i].ttl.Lingering? && MapFree(s)
    case HangUp(i) => Silent(s, i)
    case DropRx(i) => i < |s.insts| && !s.insts[i].dropped && (i in s.streams || Abandoned(s, i))
    case Read(k, room, r, t) =>
      && k < |s.streams| && s.streams[k] < |s.insts| && !s.insts[s.streams[k]].dropped
      && Reorder.PollStep(s.insts[s.streams[k]].hist.s, room, t, r)
  }

  const UNTOUCHED := Reads.Hist(Reorder.FRESH, [], [])

  /** `get_or_create_session`: the table with the session in it, spawning a TTL task for a new one. */
  function GetOrCreate(s: Server, sid: string): Server {
    if sid in s.table then s
    else s.(table := s.table[sid := |s.insts|],
            insts := s.insts + [Session(sid, true, true, false, false, Waiting, [], UNTOUCHED)])
  }

  function Begin(s: Server, sid: string, pc: Pc, body: seq<Reorder.UploadPacket>): Server {
    var t := GetOrCreate(s, sid);
    t.(handlers := t.handlers + [Handler(sid, t.table[sid], pc, body, 0)])
  }

  function SetInst(s: Server, i: nat, x: Session): Server
    requires i < |s.insts|
  {
    s.(insts := s.insts[i := x])
  }

  function SetPc(s: Server, h: nat, pc: Pc): Server
    requires h < |s.handlers|
  {
    s.(handlers := s.handlers[h := s.handlers[h].(pc := pc)])
  }

  function Offer(x: Session, m: Message, ok: bool): Session {
    if ok then x.(posted := x.posted + [m], hist := Arrived(x.hist, m.item)) else x
  }

  function Arrived(h: Reads.Hist, p: Reorder.UploadPacket): Reads.Hist {
    Reads.Hist(h.s.(rx := h.s.rx + [p]), h.arrived + [p], h.got)
  }

  function AfterRead(h: Reads.Hist, r: Reorder.Poll, t: Reorder.State): Reads.Hist {
    Reads.Hist(t, h.arrived, h.got + if r.Ready? then r.got else [])
  }

  const END := Message(None, Reorder.Eof)

  ghost function Apply(s: Server, a: Action): Server
    requires Enabled(s, a)
  {
    match a
    case Get(sid) => Begin(s, sid, GetFound, [])
    case Take(h) =>
      var i := s.handlers[h].inst;
      var x := s.insts[i];
      if !x.upRx then SetPc(s, h, Conflict)
      else if !x.downRx then SetPc(SetInst(s, i, x.(upRx := false)), h, Conflict)
      else SetPc(SetInst(s, i, x.(upRx := false, downRx := false, permit := true)), h, GetTaken)
    case Push(h) => SetPc(s, h, GetDone).(streams := s.streams + [s.handlers[h].inst])
    case Post(sid, body) => Begin(s, sid, PostFound, body)
    case CloneTx(h) => SetPc(s, h, PostCloned)
    case Send(h, ok) =>
      if !ok then SetPc(s, h, PostDone)
      else
        var x := s.handlers[h];
        SetInst(s, x.inst, Offer(s.insts[x.inst], Message(Some(h), x.body[x.sent]), true))
          .(handlers := s.handlers[h := x.(sent := x.sent + 1)])
    case EndPost(h) => SetPc(s, h, PostDone)
    case TimeOut(i) => SetInst(s, i, s.insts[i].(ttl := TimedOut))
    case Notified(i) => SetInst(s, i, s.insts[i].(ttl := Lingering, permit := false))
    case Expire(i) =>
      var sid := s.insts[i].sid;
      if sid in s.table then SetInst(s, i, s.insts[i].(ttl := Draining(s.table[sid], false))).(table := s.table - {sid})
      else SetInst(s, i, s.insts[i].(ttl := Gone))
    case LockSession(i) => SetInst(s, i, s.insts[i].(ttl := Draining(s.insts[i].ttl.target, true)))
    case SendEof(i, ok) =>
      var t := s.insts[i].ttl.target;
      var sent := SetInst(s, t, Offer(s.insts[t], END, ok));
      SetInst(sent, i, sent.insts[i].(ttl := Gone))
    case Cleanup(i) => SetInst(s, i, s.insts[i].(ttl := Gone)).(table := s.table - {s.insts[i].sid})
    case HangUp(i) => SetInst(s, i, s.insts[i].(hist := s.insts[i].hist.(s := s.insts[i].hist.s.(open := false))))
    case DropRx(i) => SetInst(s, i, s.insts[i].(dropped := true))
    case Read(k, room, r, t) =>
      var i := s.streams[k];
      SetInst(s, i, s.insts[i].(hist := AfterRead(s.insts[i].hist, r, t)))
  }

  // ---- The invariant ----

  ghost predicate TableInv(s: Server) {
    && (forall sid :: sid in s.table ==>
          s.table[sid] < |s.insts| && s.insts[s.table[sid]].sid == sid && s.insts[s.table[sid]].ttl.Live())
    && (forall i :: 0 <= i < |s.insts| && s.insts[i].ttl.Live() ==>
          s.insts[i].sid in s.table && s.table[s.insts[i].sid] == i)
    && (forall i :: 0 <= i < |s.insts| && s.insts[i].ttl.Draining? ==> s.insts[i].ttl.target == i)
  }

  ghost predicate HandlerInv(s: Server) {
    forall h :: 0 <= h < |s.handlers| ==>
      && s.handlers[h].inst < |s.insts| && s.insts[s.handlers[h].inst].sid == s.handlers[h].sid
      && s.handlers[h].sent <= |s.handlers[h].body|
  }

  predicate Holds(s: Server, h: nat) {
    h < |s.handlers| && s.handlers[h].pc == GetTaken
  }

  predicate Taken(s: Server, i: nat) {
    i < |s.insts| && !s.insts[i].upRx
  }

  /** Receivers are taken together, at most once, and end up in at most one stream. */
  ghost predicate ReceiverInv(s: Server) {
    && (forall i :: 0 <= i < |s.insts| ==> s.insts[i].upRx == s.insts[i].downRx)
    && (forall i :: 0 <= i < |s.insts| && s.insts[i].ttl.Waiting? ==> s.insts[i].permit == !s.insts[i].upRx)
    && (forall k :: 0 <= k < |s.streams| ==> Taken(s, s.streams[k]))
    && (forall k, l :: 0 <= k < l < |s.streams| ==> s.streams[k] != s.streams[l])
    && (forall h: nat :: Holds(s, h) ==> Taken(s, s.handlers[h].inst) && s.handlers[h].inst !in s.streams)
    && (forall h: nat, g: nat :: Holds(s, h) && Holds(s, g) && h != g ==> s.handlers[h].inst != s.handlers[g].inst)
  }

  /** What a handler has contributed to some messages, in order. */
  function FromHandler(ms: seq<Message>, h: nat): seq<Reorder.UploadPacket> {
    if |ms| == 0 then []
    else
      var m := ms[|ms| - 1];
      FromHandler(ms[..|ms| - 1], h) + if m.handler == Some(h) then [m.item] else []
  }

  function Items(ms: seq<Message>): seq<Reorder.UploadPacket> {
    seq(|ms|, i requires 0 <= i < |ms| => ms[i].item)
  }

  /** What a handler has sent to session instance `i`. */
  function SentTo(s: Server, i: nat, h: nat): seq<Reorder.UploadPacket> {
    if h < |s.handlers| && s.handlers[h].inst == i && s.handlers[h].sent <= |s.handlers[h].body|
    then s.handlers[h].body[..s.handlers[h].sent] else []
  }

  /** Some run of arrivals and reads of a fresh reordering stream ends here. */
  ghost predicate Reachable(h: Reads.Hist) {
    exists hs, acts :: Reads.Run(hs, acts) && hs[|acts|] == h
  }

  /** A session's channel has got exactly what the POSTs that were given this session have sent, each in its own order,
      and what is read from it is read by a reordering stream. */
  ghost predicate ChannelInv(s: Server) {
    forall i :: 0 <= i < |s.insts| ==> ChannelOk(s, i)
  }

  ghost predicate ChannelOk(s: Server, i: nat)
    requires i < |s.insts|
  {
    && Items(s.insts[i].posted) == s.insts[i].hist.arrived && Reachable(s.insts[i].hist)
    && (forall h: nat :: FromHandler(s.insts[i].posted, h) == SentTo(s, i, h))
    && (s.insts[i].hist.s.open || Silent(s, i))
  }

  ghost predicate Inv(s: Server) {
    TableInv(s) && HandlerInv(s) && ReceiverInv(s) && ChannelInv(s)
  }

  lemma TableStep(s: Server, a: Action)
    requires TableInv(s) && Enabled(s, a)
    ensures TableInv(Apply(s, a))
  {
    if a.Get? || a.Post? {
      CreateKeepsTable(s, a.sid);
    } else if a.Expire? || a.Cleanup? {
      RemoveKeepsTable(s, a);
    } else {
      OtherKeepsTable(s, a);
    }
  }

  lemma CreateKeepsTable(s: Server, sid: string)
    requires TableInv(s)
    ensures TableInv(GetOrCreate(s, sid))
  {
  }

  lemma RemoveKeepsTable(s: Server, a: Action)
    requires TableInv(s) && Enabled(s, a) && (a.Expire? || a.Cleanup?)
    ensures TableInv(Apply(s, a))
  {
    var sid := s.insts[a.i].sid;
    assert s.table[sid] == a.i;
    assert Apply(s, a).table == s.table - {sid};
  }

  predicate OfRequest(a: Action) {
    a.Take? || a.Push? || a.CloneTx? || a.Send? || a.EndPost? || a.HangUp? || a.DropRx? || a.Read?
  }

  lemma OtherKeepsTable(s: Server, a: Action)
    requires TableInv(s) && Enabled(s, a) && !a.Get? && !a.Post? && !a.Expire? && !a.Cleanup?
    ensures TableInv(Apply(s, a))
  {
    if OfRequest(a) {
      RequestKeepsTasks(s, a);
    } else {
      TaskKeepsTable(s, a);
    }
  }

  /** Steps of requests and readers leave the table, the sessions' ids and the TTL tasks alone. */
  lemma RequestKeepsTasks(s: Server, a: Action)
    requires Enabled(s, a) && OfRequest(a)
    ensures var t := Apply(s, a);
            && t.table == s.table && |t.insts| == |s.insts|
            && forall i :: 0 <= i < |s.insts| ==> t.insts[i].sid == s.insts[i].sid && t.insts[i].ttl == s.insts[i].ttl
  {
  }

  lemma TaskKeepsTable(s: Server, a: Action)
    requires TableInv(s) && Enabled(s, a) && (a.TimeOut? || a.Notified? || a.LockSession? || a.SendEof?)
    ensures TableInv(Apply(s, a))
  {
    if a.SendEof? {
      EofTasks(s, a);
    } else {
      TimerTasks(s, a);
    }
    SameTable(s, Apply(s, a), a.i);
  }

  lemma TimerTasks(s: Server, a: Action)
    requires Enabled(s, a) && (a.TimeOut? || a.Notified? || a.LockSession?)
    ensures TaskMoves(s, Apply(s, a), a.i)
  {
  }

  lemma EofTasks(s: Server, a: Action)
    requires TableInv(s) && Enabled(s, a) && a.SendEof?
    ensures TaskMoves(s, Apply(s, a), a.i)
  {
  }

  /** One TTL task goes on, as live as it was and draining the session it was draining. */
  ghost predicate TaskMoves(s: Server, t: Server, i: nat) {
    && t.table == s.table && |t.insts| == |s.insts| && i < |s.insts|
    && (forall j :: 0 <= j < |s.insts| ==> t.insts[j].sid == s.insts[j].sid)
    && (forall j :: 0 <= j < |s.insts| && j != i ==> t.insts[j].ttl == s.insts[j].ttl)
    && t.insts[i].ttl.Live() == s.insts[i].ttl.Live()
    && (t.insts[i].ttl.Draining? ==> s.insts[i].ttl.Draining? && t.insts[i].ttl.target == s.insts[i].ttl.target)
  }

  lemma SameTable(s: Server, t: Server, i: nat)
    requires TableInv(s) && TaskMoves(s, t, i)
    ensures TableInv(t)
  {
  }

  lemma HandlerStep(s: Server, a: Action)
    requires HandlerInv(s) && TableInv(s) && Enabled(s, a)
    ensures HandlerInv(Apply(s, a))
  {
    var t := Apply(s, a);
    IdsStay(s, a);
    HandlersStay(s, a);
    if |t.handlers| > |s.handlers| {
      CreateKeepsTable(s, a.sid);
    }
  }

  lemma IdsStay(s: Server, a: Action)
    requires Enabled(s, a)
    ensures var t := Apply(s, a);
            |t.insts| >= |s.insts| && forall i :: 0 <= i < |s.insts| ==> t.insts[i].sid == s.insts[i].sid
  {
  }

  /** A handler keeps its session and its body, and sends no more than the body. */
  lemma HandlersStay(s: Server, a: Action)
    requires HandlerInv(s) && Enabled(s, a)
    ensures var t := Apply(s, a);
            && |s.handlers| <= |t.handlers| <= |s.handlers| + 1
            && (|t.handlers| > |s.handlers| ==> a.Get? || a.Post?)
            && forall h :: 0 <= h < |s.handlers| ==> SameRequest(s.handlers[h], t.handlers[h])
  {
    if OfRequest(a) {
      RequestHandlers(s, a);
    }
  }

  predicate SameRequest(x: Handler, y: Handler) {
    y.inst == x.inst && y.sid == x.sid && y.body == x.body && y.sent <= |y.body|
  }

  lemma RequestHandlers(s: Server, a: Action)
    requires HandlerInv(s) && Enabled(s, a) && OfRequest(a)
    ensures |Apply(s, a).handlers| == |s.handlers|
    ensures forall h :: 0 <= h < |s.handlers| ==> SameRequest(s.handlers[h], Apply(s, a).handlers[h])
  {
  }

  lemma ReceiverStep(s: Server, a: Action)
    requires ReceiverInv(s) && HandlerInv(s) && TableInv(s) && Enabled(s, a)
    ensures ReceiverInv(Apply(s, a))
  {
    if a.Take? {
      TakeStep(s, a.h);
    } else if a.Push? {
      PushStep(s, a.h);
    } else {
      OtherKeepsReceivers(s, a);
      ReceiverFrame(s, Apply(s, a));
    }
  }

  /** No other action touches receivers, streams or the handlers that hold receivers. */
  ghost predicate SameReceivers(s: Server, t: Server) {
    && t.streams == s.streams && |t.insts| >= |s.insts|
    && (forall h: nat :: Holds(t, h) ==> Holds(s, h) && t.handlers[h].inst == s.handlers[h].inst)
    && (forall i :: 0 <= i < |s.insts| ==> t.insts[i].upRx == s.insts[i].upRx && t.insts[i].downRx == s.insts[i].downRx)
    && (forall i :: 0 <= i < |s.insts| && t.insts[i].ttl.Waiting? ==>
          s.insts[i].ttl.Waiting? && t.insts[i].permit == s.insts[i].permit)
    && (forall i :: |s.insts| <= i < |t.insts| ==> t.insts[i].upRx && t.insts[i].downRx && !t.insts[i].permit)
  }

  lemma OtherKeepsReceivers(s: Server, a: Action)
    requires Enabled(s, a) && !a.Take? && !a.Push?
    ensures SameReceivers(s, Apply(s, a))
  {
    HoldersStay(s, a);
    ReceiversStay(s, a);
  }

  lemma HoldersStay(s: Server, a: Action)
    requires Enabled(s, a) && !a.Take? && !a.Push?
    ensures var t := Apply(s, a);
            && t.streams == s.streams
            && forall h: nat :: Holds(t, h) ==> Holds(s, h) && t.handlers[h].inst == s.handlers[h].inst
  {
  }

  /** Receivers and permits are as they were, and new sessions have both receivers. */
  ghost predicate SameRx(s: Server, t: Server) {
    && |t.insts| >= |s.insts|
    && (forall i :: 0 <= i < |s.insts| ==> t.insts[i].upRx == s.insts[i].upRx && t.insts[i].downRx == s.insts[i].downRx)
    && (forall i :: 0 <= i < |s.insts| && t.insts[i].ttl.Waiting? ==>
          s.insts[i].ttl.Waiting? && t.insts[i].permit == s.insts[i].permit)
    && (forall i :: |s.insts| <= i < |t.insts| ==> t.insts[i].upRx && t.insts[i].downRx && !t.insts[i].permit)
  }

  lemma ReceiversStay(s: Server, a: Action)
    requires Enabled(s, a) && !a.Take? && !a.Push?
    ensures SameRx(s, Apply(s, a))
  {
    if OfRequest(a) {
      RequestReceivers(s, a);
    } else if a.Get? || a.Post? {
      CreateReceivers(s, a);
    } else {
      TaskReceivers(s, a);
    }
  }

  lemma RequestReceivers(s: Server, a: Action)
    requires Enabled(s, a) && OfRequest(a) && !a.Take? && !a.Push?
    ensures SameRx(s, Apply(s, a))
  {
  }

  lemma CreateReceivers(s: Server, a: Action)
    requires Enabled(s, a) && (a.Get? || a.Post?)
    ensures SameRx(s, Apply(s, a))
  {
  }

  lemma TaskReceivers(s: Server, a: Action)
    requires Enabled(s, a) && !OfRequest(a) && !a.Get? && !a.Post?
    ensures SameRx(s, Apply(s, a))
  {
  }

  lemma ReceiverFrame(s: Server, t: Server)
    requires ReceiverInv(s) && SameReceivers(s, t)
    ensures ReceiverInv(t)
  {
    assert forall i: nat :: Taken(s, i) ==> Taken(t, i);
  }

  lemma TakeStep(s: Server, h: nat)
    requires ReceiverInv(s) && HandlerInv(s) && Enabled(s, Take(h))
    ensures ReceiverInv(Apply(s, Take(h)))
  {
    var t := Apply(s, Take(h));
    var i := s.handlers[h].inst;
    assert forall j: nat :: Taken(s, j) ==> Taken(t, j);
    assert forall g: nat :: Holds(t, g) && g != h ==> Holds(s, g) && t.handlers[g] == s.handlers[g];
    assert Holds(t, h) ==> !Taken(s, i) && Taken(t, i) && t.handlers[h].inst == i;
  }

  lemma PushStep(s: Server, h: nat)
    requires ReceiverInv(s) && HandlerInv(s) && Enabled(s, Push(h))
    ensures ReceiverInv(Apply(s, Push(h)))
  {
    var t := Apply(s, Push(h));
    assert Holds(s, h);
    assert forall j: nat :: Taken(s, j) <==> Taken(t, j);
    assert forall g: nat :: Holds(t, g) ==> Holds(s, g) && g != h && t.handlers[g] == s.handlers[g];
  }

  lemma Extends(h: Reads.Hist, a: Reads.Action, k: Reads.Hist)
    requires Reachable(h) && Reads.Step(h, a, k)
    ensures Reachable(k)
  {
    var hs, acts :| Reads.Run(hs, acts) && hs[|acts|] == h;
    var ks, bs := Limits.Extend(hs, acts, a, k);
    assert Reads.Run(ks, bs) && ks[|bs|] == k;
  }

  lemma FreshIsReachable()
    ensures Reachable(UNTOUCHED)
  {
    var hs, acts: seq<Reads.Action> := [UNTOUCHED], [];
    assert Reads.Run(hs, acts) && hs[|acts|] == UNTOUCHED;
  }

  /** What happens to the stream behind a channel. */
  ghost predicate StreamStep(h: Reads.Hist, k: Reads.Hist) {
    k == h || exists a :: Reads.Step(h, a, k)
  }

  lemma ChannelStep(s: Server, a: Action)
    requires ChannelInv(s) && HandlerInv(s) && TableInv(s) && Enabled(s, a)
    ensures ChannelInv(Apply(s, a))
  {
    var t := Apply(s, a);
    forall i | 0 <= i < |t.insts|
      ensures ChannelOk(t, i)
    {
      if i < |s.insts| {
        assert ChannelOk(s, i);
        if Silent(s, i) {
          SilentStays(s, a, i);
        }
        if a.Send? && a.ok && s.handlers[a.h].inst == i {
          SendToChannel(s, a.h);
        } else {
          OtherSends(s, a, i);
          OtherChannel(s, a, i);
        }
      } else {
        NewChannel(s, a, i);
      }
    }
  }

  lemma SilentStays(s: Server, a: Action, i: nat)
    requires TableInv(s) && HandlerInv(s) && Enabled(s, a) && Silent(s, i)
    ensures Silent(Apply(s, a), i)
  {
    HandlersStay(s, a);
    OversStay(s, a);
    GoneStays(s, a, i);
    if |Apply(s, a).handlers| > |s.handlers| {
      CreateKeepsTable(s, a.sid);
    }
  }

  lemma OversStay(s: Server, a: Action)
    requires Enabled(s, a)
    ensures var t := Apply(s, a);
            && |s.handlers| <= |t.handlers|
            && forall h :: 0 <= h < |s.handlers| && s.handlers[h].pc.Over() ==> t.handlers[h].pc.Over()
  {
  }

  lemma GoneStays(s: Server, a: Action, i: nat)
    requires Enabled(s, a) && i < |s.insts| && s.insts[i].ttl.Gone?
    ensures i < |Apply(s, a).insts| && Apply(s, a).insts[i].ttl.Gone?
  {
  }

  lemma SendToChannel(s: Server, h: nat)
    requires HandlerInv(s) && Enabled(s, Send(h, true)) && ChannelOk(s, s.handlers[h].inst)
    ensures ChannelOk(Apply(s, Send(h, true)), s.handlers[h].inst)
  {
    var t, x := Apply(s, Send(h, true)), s.handlers[h];
    var was, m := s.insts[x.inst], Message(Some(h), x.body[x.sent]);
    assert was.hist.s.open;
    Extends(was.hist, Reads.Arrive(m.item), Arrived(was.hist, m.item));
    forall g: nat
      ensures FromHandler(t.insts[x.inst].posted, g) == SentTo(t, x.inst, g)
    {
      assert FromHandler(was.posted, g) == SentTo(s, x.inst, g);
      FromSnoc(was.posted, m, g);
      SendSent(s, h, g);
    }
    ItemsSnoc(was.posted, m);
  }

  lemma SendSent(s: Server, h: nat, g: nat)
    requires HandlerInv(s) && Enabled(s, Send(h, true))
    ensures var t, x := Apply(s, Send(h, true)), s.handlers[h];
            SentTo(t, x.inst, g) == SentTo(s, x.inst, g) + if g == h then [x.body[x.sent]] else []
  {
    var x := s.handlers[h];
    assert x.body[..x.sent + 1] == x.body[..x.sent] + [x.body[x.sent]];
  }

  lemma ItemsSnoc(ms: seq<Message>, m: Message)
    ensures Items(ms + [m]) == Items(ms) + [m.item]
  {
  }

  lemma FromSnoc(ms: seq<Message>, m: Message, h: nat)
    ensures FromHandler(ms + [m], h) == FromHandler(ms, h) + if m.handler == Some(h) then [m.item] else []
  {
    assert (ms + [m])[..|ms|] == ms;
  }

  /** Nobody else's contribution to instance `i` changes. */
  lemma OtherSends(s: Server, a: Action, i: nat)
    requires HandlerInv(s) && TableInv(s) && Enabled(s, a) && i < |s.insts|
    requires !(a.Send? && a.ok && s.handlers[a.h].inst == i)
    ensures forall h: nat :: SentTo(Apply(s, a), i, h) == SentTo(s, i, h)
  {
  }

  lemma OtherChannel(s: Server, a: Action, i: nat)
    requires Enabled(s, a) && TableInv(s) && i < |s.insts| && ChannelOk(s, i)
    requires !(a.Send? && a.ok && s.handlers[a.h].inst == i)
    requires Silent(s, i) ==> Silent(Apply(s, a), i)
    requires forall h: nat :: SentTo(Apply(s, a), i, h) == SentTo(s, i, h)
    ensures ChannelOk(Apply(s, a), i)
  {
    var x := s.insts[i];
    if a.SendEof? && a.ok && s.insts[a.i].ttl.target == i {
      EofToChannel(s, a.i);
    } else if a.HangUp? && a.i == i {
      Extends(x.hist, Reads.Close, x.hist.(s := x.hist.s.(open := false)));
    } else if a.Read? && s.streams[a.k] == i {
      Extends(x.hist, Reads.Read(a.room, a.r), AfterRead(x.hist, a.r, a.t));
      PollKeepsOpen(x.hist.s, a.room, a.t, a.r);
    } else {
      SameChannel(s, a, i);
    }
  }

  predicate SameStream(s: Server, t: Server, i: nat)
    requires i < |s.insts|
  {
    i < |t.insts| && t.insts[i].posted == s.insts[i].posted && t.insts[i].hist == s.insts[i].hist
  }

  lemma SameChannel(s: Server, a: Action, i: nat)
    requires Enabled(s, a) && i < |s.insts| && !(a.Send? && a.ok && s.handlers[a.h].inst == i)
    requires !(a.SendEof? && a.ok && s.insts[a.i].ttl.target == i)
    requires !(a.HangUp? && a.i == i) && !(a.Read? && s.streams[a.k] == i)
    ensures SameStream(s, Apply(s, a), i)
  {
    if OfRequest(a) {
      RequestChannel(s, a, i);
    }
  }

  lemma RequestChannel(s: Server, a: Action, i: nat)
    requires Enabled(s, a) && OfRequest(a) && i < |s.insts| && !(a.Send? && a.ok && s.handlers[a.h].inst == i)
    requires !(a.HangUp? && a.i == i) && !(a.Read? && s.streams[a.k] == i)
    ensures SameStream(s, Apply(s, a), i)
  {
  }

  lemma PollKeepsOpen(s: Reorder.State, room: nat, t: Reorder.State, r: Reorder.Poll)
    requires Reorder.PollStep(s, room, t, r)
    ensures t.open == s.open
  {
  }

  lemma EofToChannel(s: Server, j: nat)
    requires TableInv(s) && Enabled(s, SendEof(j, true)) && ChannelOk(s, s.insts[j].ttl.target)
    requires var i := s.insts[j].ttl.target;
             forall h: nat :: SentTo(Apply(s, SendEof(j, true)), i, h) == SentTo(s, i, h)
    ensures ChannelOk(Apply(s, SendEof(j, true)), s.insts[j].ttl.target)
  {
    var t := Apply(s, SendEof(j, true));
    var i := s.insts[j].ttl.target;
    var x := s.insts[i];
    assert i == j && x.hist.s.open;
    Extends(x.hist, Reads.Arrive(END.item), Arrived(x.hist, END.item));
    ItemsSnoc(x.posted, END);
    forall h: nat
      ensures FromHandler(t.insts[i].posted, h) == SentTo(t, i, h)
    {
      FromSnoc(x.posted, END, h);
      assert FromHandler(x.posted, h) == SentTo(s, i, h);
    }
  }

  lemma NewChannel(s: Server, a: Action, i: nat)
    requires HandlerInv(s) && Enabled(s, a) && |s.insts| <= i < |Apply(s, a).insts|
    ensures ChannelOk(Apply(s, a), i)
  {
    var t := Apply(s, a);
    assert t.insts[i].posted == [] && t.insts[i].hist == UNTOUCHED;
    FreshIsReachable();
    forall h: nat
      ensures FromHandler(t.insts[i].posted, h) == SentTo(t, i, h)
    {
      if h < |s.handlers| {
        assert t.handlers[h] == s.handlers[h];
      }
    }
  }

  ghost predicate Moves(ss: seq<Server>, acts: seq<Action>, n: nat)
    requires n < |acts| && |ss| == |acts| + 1
  {
    Enabled(ss[n], acts[n]) && ss[n + 1] == Apply(ss[n], acts[n])
  }

  ghost predicate Run(ss: seq<Server>, acts: seq<Action>) {
    |ss| == |acts| + 1 && ss[0] == START && forall n :: 0 <= n < |acts| ==> Moves(ss, acts, n)
  }

  lemma RunPrefix(ss: seq<Server>, acts: seq<Action>, n: nat)
    requires Run(ss, acts) && n <= |acts|
    ensures Run(ss[..n + 1], acts[..n])
  {
    var ts, bs := ss[..n + 1], acts[..n];
    forall m | 0 <= m < n
      ensures Moves(ts, bs, m)
    {
      assert Moves(ss, acts, m);
    }
  }

  /** The invariant holds after every step of every interleaving. */
  lemma {:induction false} RunKeepsInv(ss: seq<Server>, acts: seq<Action>)
    requires Run(ss, acts)
    ensures Inv(ss[|acts|])
  {
    if |acts| == 0 {
    } else {
      var n := |acts| - 1;
      RunPrefix(ss, acts, n);
      RunKeepsInv(ss[..n + 1], acts[..n]);
      var s, a := ss[n], acts[n];
      assert Moves(ss, acts, n);
      TableStep(s, a);
      HandlerStep(s, a);
      ReceiverStep(s, a);
      ChannelStep(s, a);
    }
  }

  // ---- What it gives ----

  /** A table entry has exactly one live TTL task, that of its own instance; no live task is without an entry. */
  lemma OneTaskPerEntry(ss: seq<Server>, acts: seq<Action>, sid: string, i: nat)
    requires Run(ss, acts) && i < |ss[|acts|].insts|
    ensures var s := ss[|acts|];
            (s.insts[i].sid == sid && s.insts[i].ttl.Live()) <==> (sid in s.table && s.table[sid] == i)
  {
    RunKeepsInv(ss, acts);
  }

  predicate Keeps(s: Server, t: Server, sid: string)
    requires sid in s.table
  {
    sid in t.table && t.table[sid] == s.table[sid]
  }

  /** The TTL task of instance `a.i` takes something out of the table. */
  predicate Removes(a: Action) { a.Expire? || a.Cleanup? }

  /** A TTL task takes its own instance out of the table and nothing else, and sends EOF to no other session. */
  lemma TaskRemovesOnlyItsOwn(ss: seq<Server>, acts: seq<Action>, a: Action)
    requires Run(ss, acts) && Enabled(ss[|acts|], a)
    ensures var s, t := ss[|acts|], Apply(ss[|acts|], a);
            && (forall sid :: sid in s.table ==> (Keeps(s, t, sid) <==> !(Removes(a) && s.table[sid] == a.i)))
            && (a.SendEof? ==> forall j :: 0 <= j < |s.insts| && j != a.i ==> t.insts[j] == s.insts[j])
  {
    RunKeepsInv(ss, acts);
    EntriesLost(ss[|acts|], a);
    if a.SendEof? {
      EofStaysHome(ss[|acts|], a);
    }
  }

  lemma EntriesLost(s: Server, a: Action)
    requires TableInv(s) && Enabled(s, a)
    ensures var t := Apply(s, a);
            forall sid :: sid in s.table ==> (Keeps(s, t, sid) <==> !(Removes(a) && s.table[sid] == a.i))
  {
  }

  lemma EofStaysHome(s: Server, a: Action)
    requires TableInv(s) && Enabled(s, a) && a.SendEof?
    ensures |Apply(s, a).insts| == |s.insts|
    ensures forall j :: 0 <= j < |s.insts| && j != a.i ==> Apply(s, a).insts[j] == s.insts[j]
  {
  }

  /** Two streams never belong to one instance, and `up_rx` and `down_rx` are both there or both gone. */
  lemma OneStreamPerInstance(ss: seq<Server>, acts: seq<Action>)
    requires Run(ss, acts)
    ensures var s := ss[|acts|];
            && (forall k, l :: 0 <= k < l < |s.streams| ==> s.streams[k] != s.streams[l])
            && (forall i :: 0 <= i < |s.insts| ==> s.insts[i].upRx == s.insts[i].downRx)
  {
    RunKeepsInv(ss, acts);
  }

  /** A session's task can time out exactly while it still waits and no GET has taken the receivers. */
  lemma TimesOutIffNoGet(ss: seq<Server>, acts: seq<Action>, i: nat)
    requires Run(ss, acts) && i < |ss[|acts|].insts|
    ensures var s := ss[|acts|];
            Enabled(s, TimeOut(i)) <==> s.insts[i].ttl.Waiting? && s.insts[i].upRx && s.insts[i].downRx
  {
    RunKeepsInv(ss, acts);
  }

  lemma {:induction false} FromPrefix(a: seq<Message>, b: seq<Message>, h: nat)
    requires a <= b
    ensures FromHandler(a, h) <= FromHandler(b, h)
    decreases |b|
  {
    if a == b {
    } else {
      assert a <= b[..|b| - 1];
      FromPrefix(a, b[..|b| - 1], h);
    }
  }

  /** A stream receives, in order, what was posted through its own instance and nothing else: from each POST for its
      session exactly what it has sent, in its order, and from a POST that was given another instance nothing. */
  lemma PostedReachesItsStream(ss: seq<Server>, acts: seq<Action>, k: nat, h: nat)
    requires Run(ss, acts) && k < |ss[|acts|].streams| && h < |ss[|acts|].handlers|
    ensures var s, x := ss[|acts|], ss[|acts|].handlers[h];
            var i := s.streams[k];
            && i < |s.insts| && x.sent <= |x.body| && (x.inst == i ==> x.sid == s.insts[i].sid)
            && var posted, rx := s.insts[i].posted, s.insts[i].hist.s.rx;
               && Items(posted) == s.insts[i].hist.arrived && |rx| <= |posted|
               && rx == Items(posted)[|posted| - |rx|..]
               && FromHandler(posted, h) == (if x.inst == i then x.body[..x.sent] else [])
               && FromHandler(posted[..|posted| - |rx|], h) <= (if x.inst == i then x.body else [])
  {
    RunKeepsInv(ss, acts);
    var s := ss[|acts|];
    var i := s.streams[k];
    assert ChannelOk(s, i);
    assert FromHandler(s.insts[i].posted, h) == SentTo(s, i, h);
    var hs, bs :| Reads.Run(hs, bs) && hs[|bs|] == s.insts[i].hist;
    Limits.RunFifo(hs, bs);
    var posted, rx := s.insts[i].posted, s.insts[i].hist.s.rx;
    FromPrefix(posted[..|posted| - |rx|], posted, h);
  }

  // ---- The session table and the reordering stream together ----

  /** All the POSTs of a session send numbered packets whose contents are those of their numbers. */
  ghost predicate PacketBodies(data: nat -> Bytes, s: Server, i: nat) {
    forall h :: 0 <= h < |s.handlers| && s.handlers[h].inst == i ==> Reads.FromPackets(data, s.handlers[h].body)
  }

  lemma {:induction false} InFromHandler(ms: seq<Message>, m: Message)
    requires m in ms && m.handler.Some?
    ensures m.item in FromHandler(ms, m.handler.value)
    decreases |ms|
  {
    if m == ms[|ms| - 1] {
    } else {
      InFromHandler(ms[..|ms| - 1], m);
    }
  }

  lemma {:induction false} EndsOnly(ss: seq<Server>, acts: seq<Action>, i: nat)
    requires Run(ss, acts) && i < |ss[|acts|].insts|
    ensures forall m :: m in ss[|acts|].insts[i].posted && m.handler.None? ==> m == END
    decreases |acts|
  {
    if |acts| == 0 {
    } else {
      var n := |acts| - 1;
      var s, a := ss[n], acts[n];
      assert Moves(ss, acts, n);
      if i < |s.insts| {
        RunPrefix(ss, acts, n);
        EndsOnly(ss[..n + 1], acts[..n], i);
        PostedGrows(s, a, i);
      } else {
        NewPosted(s, a, i);
      }
    }
  }

  lemma PostedGrows(s: Server, a: Action, i: nat)
    requires Enabled(s, a) && i < |s.insts|
    ensures var t := Apply(s, a);
            && i < |t.insts|
            && (t.insts[i].posted == s.insts[i].posted
                || exists m: Message :: (m.handler.Some? || m == END) && t.insts[i].posted == s.insts[i].posted + [m])
  {
    var t := Apply(s, a);
    if a.Send? && a.ok && s.handlers[a.h].inst == i {
      var x := s.handlers[a.h];
      var m := Message(Some(a.h), x.body[x.sent]);
      assert (m.handler.Some? || m == END) && t.insts[i].posted == s.insts[i].posted + [m];
    } else if a.SendEof? && a.ok && s.insts[a.i].ttl.target == i {
      assert t.insts[i].posted == s.insts[i].posted + [END];
    }
  }

  lemma NewPosted(s: Server, a: Action, i: nat)
    requires Enabled(s, a) && |s.insts| <= i < |Apply(s, a).insts|
    ensures Apply(s, a).insts[i].posted == []
  {
  }

  /** Packets POSTed for a session come out of its stream in order of their numbers, in every interleaving of GET, POST
      and TTL steps and reads. */
  lemma SessionInOrder(data: nat -> Bytes, ss: seq<Server>, acts: seq<Action>, k: nat)
    requires Run(ss, acts) && k < |ss[|acts|].streams| && PacketBodies(data, ss[|acts|], ss[|acts|].streams[k])
    ensures var s := ss[|acts|];
            && s.streams[k] < |s.insts|
            && var h := s.insts[s.streams[k]].hist; h.got + h.s.leftover == Reads.Upto(data, h.s.next)
  {
    RunKeepsInv(ss, acts);
    var s := ss[|acts|];
    var i := s.streams[k];
    var h := s.insts[i].hist;
    assert ChannelOk(s, i);
    EndsOnly(ss, acts, i);
    ArrivedFromPackets(data, s, i);
    var hs, bs :| Reads.Run(hs, bs) && hs[|bs|] == h;
    Reads.RunInOrder(data, hs, bs);
  }

  lemma ArrivedFromPackets(data: nat -> Bytes, s: Server, i: nat)
    requires i < |s.insts| && ChannelOk(s, i) && PacketBodies(data, s, i)
    requires forall m :: m in s.insts[i].posted && m.handler.None? ==> m == END
    ensures Reads.FromPackets(data, s.insts[i].hist.arrived)
  {
    var posted := s.insts[i].posted;
    forall p | p in s.insts[i].hist.arrived
      ensures !p.Chunk? && (p.Packet? ==> p.data == data(p.num))
    {
      var j :| 0 <= j < |posted| && Items(posted)[j] == p;
      var m := posted[j];
      assert m in posted;
      if m.handler.Some? {
        InFromHandler(posted, m);
        assert FromHandler(posted, m.handler.value) == SentTo(s, i, m.handler.value);
      }
    }
  }
}
