/** Whole runs of the session table: what becomes of every GET, every POST, every TTL task and every stream. */
module XhttpSessionRuns {
  import opened Bytes
  import opened XhttpSessions
  import Reorder = XhttpReorder
  import Reads = XhttpReorderProofs
  import Limits = XhttpReorderLimits
  import Full = XhttpReorderFull

  lemma StepAt(ss: seq<Server>, acts: seq<Action>, n: nat)
    requires Run(ss, acts) && n < |acts|
    ensures Enabled(ss[n], acts[n]) && ss[n + 1] == Apply(ss[n], acts[n])
  {
    assert Moves(ss, acts, n);
  }

  lemma InvAt(ss: seq<Server>, acts: seq<Action>, n: nat)
    requires Run(ss, acts) && n <= |acts|
    ensures Inv(ss[n])
  {
    RunPrefix(ss, acts, n);
    RunKeepsInv(ss[..n + 1], acts[..n]);
  }

  lemma TableAt(ss: seq<Server>, acts: seq<Action>, n: nat)
    requires Run(ss, acts) && n <= |acts|
    ensures TableInv(ss[n]) && HandlerInv(ss[n])
  {
    InvAt(ss, acts, n);
  }

  // ---- GET ----

  /** The request that `a` lets into its session's lock wants the receivers of instance `i`. */
  predicate Takes(s: Server, a: Action, i: nat) {
    a.Take? && a.h < |s.handlers| && s.handlers[a.h].inst == i
  }

  predicate TakenBefore(ss: seq<Server>, acts: seq<Action>, n: nat, i: nat)
    requires n <= |acts| && |ss| == |acts| + 1
  {
    exists m :: 0 <= m < n && Takes(ss[m], acts[m], i)
  }

  lemma TakeTakes(s: Server, a: Action, i: nat)
    requires Enabled(s, a)
    ensures Taken(Apply(s, a), i) <==> Taken(s, i) || Takes(s, a, i)
  {
    if a.Take? {
    } else if a.Get? || a.Post? {
    } else if OfRequest(a) {
      RequestTakes(s, a, i);
    } else {
      TaskTakes(s, a, i);
    }
  }

  lemma RequestTakes(s: Server, a: Action, i: nat)
    requires Enabled(s, a) && OfRequest(a) && !a.Take?
    ensures Taken(Apply(s, a), i) <==> Taken(s, i)
  {
  }

  lemma TaskTakes(s: Server, a: Action, i: nat)
    requires Enabled(s, a) && !OfRequest(a) && !a.Get? && !a.Post?
    ensures Taken(Apply(s, a), i) <==> Taken(s, i)
  {
  }

  lemma {:induction false} TakenIff(ss: seq<Server>, acts: seq<Action>, n: nat, i: nat)
    requires Run(ss, acts) && n <= |acts|
    ensures Taken(ss[n], i) <==> TakenBefore(ss, acts, n, i)
  {
    if n > 0 {
      TakenIff(ss, acts, n - 1, i);
      StepAt(ss, acts, n - 1);
      TakeTakes(ss[n - 1], acts[n - 1], i);
    }
  }

  /** A GET gets its session's lock: it is refused if and only if an earlier GET has had the lock of the same instance.
      Otherwise its stream can be handed on at once, as the stream of exactly that instance. */
  lemma TakeAnswered(ss: seq<Server>, acts: seq<Action>, n: nat)
    requires Run(ss, acts) && n < |acts| && acts[n].Take?
    ensures var h := acts[n].h;
            && h < |ss[n].handlers| && h < |ss[n + 1].handlers|
            && var i, t := ss[n].handlers[h].inst, ss[n + 1];
               && t.handlers[h].inst == i && t.streams == ss[n].streams
               && (t.handlers[h].pc == Conflict <==> TakenBefore(ss, acts, n, i))
               && (Enabled(t, Push(h)) <==> !TakenBefore(ss, acts, n, i))
               && (Enabled(t, Push(h)) ==> Apply(t, Push(h)).streams == t.streams + [i])
  {
    StepAt(ss, acts, n);
    InvAt(ss, acts, n);
    TakenIff(ss, acts, n, ss[n].handlers[acts[n].h].inst);
    TakeAnswer(ss[n], acts[n].h);
  }

  lemma TakeAnswer(s: Server, h: nat)
    requires ReceiverInv(s) && Enabled(s, Take(h))
    ensures var t, i := Apply(s, Take(h)), s.handlers[h].inst;
            && |t.handlers| == |s.handlers| && t.handlers[h].inst == i && t.streams == s.streams
            && t.handlers[h].pc == (if Taken(s, i) then Conflict else GetTaken)
            && (Enabled(t, Push(h)) <==> !Taken(s, i))
            && (Enabled(t, Push(h)) ==> Apply(t, Push(h)).streams == t.streams + [i])
  {
  }

  lemma {:induction false} HandlerStays(ss: seq<Server>, acts: seq<Action>, m: nat, n: nat, h: nat)
    requires Run(ss, acts) && m <= n <= |acts| && h < |ss[m].handlers|
    ensures h < |ss[n].handlers|
    ensures ss[n].handlers[h].inst == ss[m].handlers[h].inst && ss[n].handlers[h].body == ss[m].handlers[h].body
  {
    if m < n {
      HandlerStays(ss, acts, m, n - 1, h);
      HandlerNext(ss, acts, n - 1, h);
    }
  }

  lemma HandlerNext(ss: seq<Server>, acts: seq<Action>, n: nat, h: nat)
    requires Run(ss, acts) && n < |acts| && h < |ss[n].handlers|
    ensures h < |ss[n + 1].handlers|
    ensures ss[n + 1].handlers[h].inst == ss[n].handlers[h].inst && ss[n + 1].handlers[h].body == ss[n].handlers[h].body
  {
    StepAt(ss, acts, n);
    TableAt(ss, acts, n);
    HandlersStay(ss[n], acts[n]);
    assert SameRequest(ss[n].handlers[h], ss[n + 1].handlers[h]);
  }

  lemma PushWaits(s: Server, a: Action, h: nat)
    requires Enabled(s, a) && Enabled(s, Push(h)) && a != Push(h)
    ensures Enabled(Apply(s, a), Push(h))
  {
  }

  lemma StreamsGrow(s: Server, a: Action)
    requires Enabled(s, a)
    ensures s.streams <= Apply(s, a).streams
    ensures a.Push? ==> s.handlers[a.h].inst in Apply(s, a).streams
  {
  }

  lemma {:induction false} ServedAfter(ss: seq<Server>, acts: seq<Action>, m: nat, n: nat, h: nat)
    requires Run(ss, acts) && m <= n <= |acts| && Enabled(ss[m], Push(h))
    ensures Enabled(ss[n], Push(h)) || ss[m].handlers[h].inst in ss[n].streams
  {
    if m < n {
      ServedAfter(ss, acts, m, n - 1, h);
      HandlerStays(ss, acts, m, n - 1, h);
      ServedNext(ss, acts, n - 1, h);
    }
  }

  lemma ServedNext(ss: seq<Server>, acts: seq<Action>, n: nat, h: nat)
    requires Run(ss, acts) && n < |acts|
    ensures ss[n].streams <= ss[n + 1].streams
    ensures Enabled(ss[n], Push(h)) ==> Enabled(ss[n + 1], Push(h)) || ss[n].handlers[h].inst in ss[n + 1].streams
  {
    StepAt(ss, acts, n);
    StreamsGrow(ss[n], acts[n]);
    if Enabled(ss[n], Push(h)) && acts[n] != Push(h) {
      PushWaits(ss[n], acts[n], h);
    }
  }

  /** The first GET that gets the lock of an instance is served in every later state: its stream has been handed on, or
      nothing but this is left to do. */
  lemma FirstGetIsServed(ss: seq<Server>, acts: seq<Action>, n: nat)
    requires Run(ss, acts) && n < |acts| && acts[n].Take?
    requires acts[n].h < |ss[n].handlers| && !TakenBefore(ss, acts, n, ss[n].handlers[acts[n].h].inst)
    ensures var s := ss[|acts|];
            Enabled(s, Push(acts[n].h)) || ss[n].handlers[acts[n].h].inst in s.streams
  {
    TakeAnswered(ss, acts, n);
    ServedAfter(ss, acts, n + 1, |acts|, acts[n].h);
  }

  // ---- Which session a request is given ----

  predicate Entry(s: Server, sid: string, i: nat) {
    sid in s.table && s.table[sid] == i
  }

  /** The TTL task of instance `i` takes its entry out of the table in one of these steps. */
  predicate Removed(acts: seq<Action>, i: nat) {
    Expire(i) in acts || Cleanup(i) in acts
  }

  lemma EntryStep(s: Server, a: Action, sid: string, i: nat)
    requires TableInv(s) && Enabled(s, a) && i < |s.insts|
    ensures Entry(Apply(s, a), sid, i) <==> Entry(s, sid, i) && !(Removes(a) && a.i == i)
  {
    EntriesLost(s, a);
    if Entry(s, sid, i) {
      assert Keeps(s, Apply(s, a), sid) <==> !(Removes(a) && s.table[sid] == a.i);
    } else {
      NoNewEntry(s, a, sid, i);
    }
  }

  lemma NoNewEntry(s: Server, a: Action, sid: string, i: nat)
    requires Enabled(s, a) && i < |s.insts| && !Entry(s, sid, i)
    ensures !Entry(Apply(s, a), sid, i)
  {
  }

  lemma {:induction false} EntryStays(ss: seq<Server>, acts: seq<Action>, m: nat, n: nat, sid: string, i: nat)
    requires Run(ss, acts) && m <= n <= |acts| && i < |ss[m].insts| && Entry(ss[m], sid, i)
    ensures i < |ss[n].insts| && (Entry(ss[n], sid, i) <==> !Removed(acts[m..n], i))
  {
    if m < n {
      EntryStays(ss, acts, m, n - 1, sid, i);
      EntryNext(ss, acts, n - 1, sid, i);
      assert acts[m..n] == acts[m..n - 1] + [acts[n - 1]];
    }
  }

  lemma EntryNext(ss: seq<Server>, acts: seq<Action>, n: nat, sid: string, i: nat)
    requires Run(ss, acts) && n < |acts| && i < |ss[n].insts|
    ensures i < |ss[n + 1].insts|
    ensures Entry(ss[n + 1], sid, i) <==> Entry(ss[n], sid, i) && !(acts[n] == Expire(i) || acts[n] == Cleanup(i))
  {
    StepAt(ss, acts, n);
    TableAt(ss, acts, n);
    IdsStay(ss[n], acts[n]);
    EntryStep(ss[n], acts[n], sid, i);
  }

  lemma DoneMore(acts: seq<Action>, n: nat, a: Action)
    requires n < |acts|
    ensures a in acts[..n + 1] <==> a in acts[..n] || a == acts[n]
  {
    assert acts[..n + 1] == acts[..n] + [acts[n]];
  }

  /** What GET and POST do first: the table's session for the id, or a new one that nobody has had before. */
  lemma Requested(s: Server, a: Action)
    requires TableInv(s) && Enabled(s, a) && (a.Get? || a.Post?)
    ensures var t, h := Apply(s, a), |s.handlers|;
            && |t.handlers| == h + 1 && t.handlers[..h] == s.handlers && t.streams == s.streams
            && Entry(t, a.sid, t.handlers[h].inst) && t.handlers[h].inst < |t.insts|
            && t.handlers[h].pc == (if a.Get? then GetFound else PostFound) && t.handlers[h].sent == 0
            && t.handlers[h].body == (if a.Get? then [] else a.body)
            && (forall i :: Entry(s, a.sid, i) ==> t.handlers[h].inst == i)
            && (a.sid !in s.table ==> t.handlers[h].inst == |s.insts|)
  {
  }

  /** Two requests for one id are given the same session if and only if no TTL task has removed it in between. */
  lemma SameSessionIff(ss: seq<Server>, acts: seq<Action>, m: nat, n: nat)
    requires Run(ss, acts) && m < n < |acts|
    requires (acts[m].Get? || acts[m].Post?) && (acts[n].Get? || acts[n].Post?) && acts[m].sid == acts[n].sid
    ensures var s, g, h := ss[n + 1], |ss[m].handlers|, |ss[n].handlers|;
            && g < h < |s.handlers|
            && (s.handlers[h].inst == s.handlers[g].inst <==> !Removed(acts[m + 1..n], s.handlers[g].inst))
  {
    var g, sid := |ss[m].handlers|, acts[m].sid;
    StepAt(ss, acts, m);
    TableAt(ss, acts, m);
    Requested(ss[m], acts[m]);
    var i := ss[m + 1].handlers[g].inst;
    EntryStays(ss, acts, m + 1, n, sid, i);
    HandlerStays(ss, acts, m + 1, n, g);
    HandlerStays(ss, acts, m + 1, n + 1, g);
    StepAt(ss, acts, n);
    TableAt(ss, acts, n);
    Requested(ss[n], acts[n]);
  }

  // ---- TTL tasks ----

  /** What the TTL task of an instance has done. */
  datatype Past = Past(timedOut: bool, expired: bool, locked: bool, ended: bool, notified: bool, cleaned: bool)

  const NOTHING := Past(false, false, false, false, false, false)

  function PastOf(acts: seq<Action>, i: nat): Past {
    Past(TimeOut(i) in acts, Expire(i) in acts, LockSession(i) in acts,
         SendEof(i, true) in acts || SendEof(i, false) in acts, Notified(i) in acts, Cleanup(i) in acts)
  }

  /** The task's state tells exactly what it has done: without a GET it times out, takes its entry out of the table,
      locks its own session and ends it; with one it lingers and takes its entry out. */
  predicate Stage(ttl: Ttl, i: nat, p: Past) {
    match ttl
    case Waiting => p == NOTHING
    case TimedOut => p == Past(true, false, false, false, false, false)
    case Draining(target, locked) => target == i && p == Past(true, true, locked, false, false, false)
    case Lingering => p == Past(false, false, false, false, true, false)
    case Gone => p == Past(true, true, true, true, false, false) || p == Past(false, false, false, false, true, true)
  }

  function More(p: Past, a: Action, i: nat): Past {
    Past(p.timedOut || a == TimeOut(i), p.expired || a == Expire(i), p.locked || a == LockSession(i),
         p.ended || (a.SendEof? && a.i == i), p.notified || a == Notified(i), p.cleaned || a == Cleanup(i))
  }

  lemma PastMore(acts: seq<Action>, n: nat, i: nat)
    requires n < |acts|
    ensures PastOf(acts[..n + 1], i) == More(PastOf(acts[..n], i), acts[n], i)
  {
    assert acts[..n + 1] == acts[..n] + [acts[n]];
  }

  lemma StageStep(s: Server, a: Action, i: nat, p: Past)
    requires TableInv(s) && Enabled(s, a) && i < |s.insts| && Stage(s.insts[i].ttl, i, p)
    ensures i < |Apply(s, a).insts| && Stage(Apply(s, a).insts[i].ttl, i, More(p, a, i))
  {
    if !OfRequest(a) && !a.Get? && !a.Post? && a.i == i {
      OwnStage(s, a, p);
    } else {
      SameStage(s, a, i, p);
    }
  }

  lemma SameStage(s: Server, a: Action, i: nat, p: Past)
    requires TableInv(s) && Enabled(s, a) && i < |s.insts| && (OfRequest(a) || a.Get? || a.Post? || a.i != i)
    ensures i < |Apply(s, a).insts| && Apply(s, a).insts[i].ttl == s.insts[i].ttl && More(p, a, i) == p
  {
    if OfRequest(a) {
      RequestKeepsTasks(s, a);
    } else if !a.Get? && !a.Post? {
      OtherStage(s, a, i, p);
    }
  }

  lemma OwnStage(s: Server, a: Action, p: Past)
    requires TableInv(s) && Enabled(s, a) && !OfRequest(a) && !a.Get? && !a.Post?
    requires a.i < |s.insts| && Stage(s.insts[a.i].ttl, a.i, p)
    ensures a.i < |Apply(s, a).insts| && Stage(Apply(s, a).insts[a.i].ttl, a.i, More(p, a, a.i))
  {
    assert s.insts[a.i].ttl.Live() ==> Entry(s, s.insts[a.i].sid, a.i);
  }

  lemma OtherStage(s: Server, a: Action, i: nat, p: Past)
    requires TableInv(s) && Enabled(s, a) && !OfRequest(a) && !a.Get? && !a.Post? && a.i != i && i < |s.insts|
    ensures i < |Apply(s, a).insts| && Apply(s, a).insts[i].ttl == s.insts[i].ttl && More(p, a, i) == p
  {
  }

  lemma NewStage(s: Server, a: Action, i: nat)
    requires Enabled(s, a) && |s.insts| <= i
    ensures More(NOTHING, a, i) == NOTHING
    ensures i < |Apply(s, a).insts| ==> Apply(s, a).insts[i].ttl == Waiting
  {
  }

  /** In every state of every run each TTL task has done exactly what its state says, each step at most in its turn. */
  lemma {:induction false} TaskHistory(ss: seq<Server>, acts: seq<Action>, n: nat, i: nat)
    requires Run(ss, acts) && n <= |acts|
    ensures StageIs(ss[n], i, PastOf(acts[..n], i))
  {
    if n > 0 {
      TaskHistory(ss, acts, n - 1, i);
      PastMore(acts, n - 1, i);
      StageNext(ss, acts, n - 1, i, PastOf(acts[..n - 1], i));
    }
  }

  predicate StageIs(s: Server, i: nat, p: Past) {
    if i < |s.insts| then Stage(s.insts[i].ttl, i, p) else p == NOTHING
  }

  lemma StageNext(ss: seq<Server>, acts: seq<Action>, n: nat, i: nat, p: Past)
    requires Run(ss, acts) && n < |acts| && StageIs(ss[n], i, p)
    ensures StageIs(ss[n + 1], i, More(p, acts[n], i))
  {
    StepAt(ss, acts, n);
    TableAt(ss, acts, n);
    if i < |ss[n].insts| {
      StageStep(ss[n], acts[n], i, p);
    } else {
      NewStage(ss[n], acts[n], i);
    }
  }

  /** At most one task holds the lock of the table. */
  predicate OneHolder(s: Server) {
    forall i, j :: 0 <= i < j < |s.insts| ==> !(s.insts[i].ttl.Draining? && s.insts[j].ttl.Draining?)
  }

  lemma HolderStep(s: Server, a: Action)
    requires TableInv(s) && OneHolder(s) && Enabled(s, a)
    ensures OneHolder(Apply(s, a))
  {
    if OfRequest(a) {
      RequestKeepsTasks(s, a);
    } else if a.Get? || a.Post? {
    } else {
      TaskHolder(s, a);
    }
  }

  lemma TaskHolder(s: Server, a: Action)
    requires TableInv(s) && OneHolder(s) && Enabled(s, a) && !OfRequest(a) && !a.Get? && !a.Post?
    ensures OneHolder(Apply(s, a))
  {
    if a.SendEof? {
      EofTasks(s, a);
    }
  }

  lemma {:induction false} RunOneHolder(ss: seq<Server>, acts: seq<Action>, n: nat)
    requires Run(ss, acts) && n <= |acts|
    ensures OneHolder(ss[n])
  {
    if n > 0 {
      RunOneHolder(ss, acts, n - 1);
      StepAt(ss, acts, n - 1);
      TableAt(ss, acts, n - 1);
      HolderStep(ss[n - 1], acts[n - 1]);
    }
  }

  /** A task that holds the lock of the table lets it go in at most two steps of its own, both enabled, with its entry
      out of the table, and with the end of the stream sent to its own session unless nobody can receive it. */
  lemma TableIsReleased(ss: seq<Server>, acts: seq<Action>, s: Server, i: nat)
    requires Run(ss, acts) && s == ss[|acts|] && i < |s.insts| && s.insts[i].ttl.Draining?
    ensures if s.insts[i].ttl.locked then EndsItself(s, i)
            else Enabled(s, LockSession(i)) && EndsItself(Apply(s, LockSession(i)), i)
  {
    TableAt(ss, acts, |acts|);
    RunOneHolder(ss, acts, |acts|);
    if s.insts[i].ttl.locked {
      HolderEnds(s, i);
    } else {
      OthersDrainOthers(s, i);
      HolderLocks(s, i);
      HolderEnds(Apply(s, LockSession(i)), i);
    }
  }

  /** In its next step the task of instance `i` sends the end of the stream to its own session, if anybody can receive
      it, and lets go of the table, which has no entry for it any more. */
  ghost predicate EndsItself(s: Server, i: nat) {
    && i < |s.insts| && Enabled(s, SendEof(i, !s.insts[i].dropped))
    && var x, t := s.insts[i], Apply(s, SendEof(i, !s.insts[i].dropped));
       && i < |t.insts| && !Entry(t, x.sid, i) && MapFree(t)
       && t.insts[i].posted == x.posted + if x.dropped then [] else [END]
  }

  lemma HolderLocks(s: Server, i: nat)
    requires TableInv(s) && OneHolder(s) && i < |s.insts| && s.insts[i].ttl == Draining(i, false) && SessionFree(s, i)
    ensures var m := Apply(s, LockSession(i));
            TableInv(m) && OneHolder(m) && i < |m.insts| && m.insts[i] == s.insts[i].(ttl := Draining(i, true))
  {
    TaskKeepsTable(s, LockSession(i));
  }

  lemma HolderEnds(s: Server, i: nat)
    requires TableInv(s) && OneHolder(s) && i < |s.insts| && s.insts[i].ttl == Draining(i, true)
    ensures EndsItself(s, i)
  {
  }

  lemma OthersDrainOthers(s: Server, i: nat)
    requires TableInv(s) && i < |s.insts| && s.insts[i].ttl.Draining? && !s.insts[i].ttl.locked
    ensures SessionFree(s, i)
  {
  }

  /** Without the table's lock in the way any request can come in. */
  lemma RequestsComeIn(s: Server, sid: string, body: seq<Reorder.UploadPacket>)
    requires MapFree(s)
    ensures Enabled(s, Get(sid)) && Enabled(s, Post(sid, body))
  {
  }

  /** Without the table's lock in the way every task that is not over can go on: it waits for its GET or its timeout,
      whichever is to come, or for nothing. */
  lemma TaskCanGoOn(ss: seq<Server>, acts: seq<Action>, i: nat)
    requires Run(ss, acts) && i < |ss[|acts|].insts| && MapFree(ss[|acts|])
    ensures var s, ttl := ss[|acts|], ss[|acts|].insts[i].ttl;
            && (ttl.Waiting? ==> if Taken(s, i) then Enabled(s, Notified(i)) else Enabled(s, TimeOut(i)))
            && (ttl.TimedOut? ==> Enabled(s, Expire(i)))
            && (ttl.Lingering? ==> Enabled(s, Cleanup(i)))
            && !ttl.Draining?
  {
    InvAt(ss, acts, |acts|);
  }

  // ---- POST ----

  /** A request's state tells what it has done, and how often it has sent. */
  predicate Progress(x: Handler, h: nat, acts: seq<Action>) {
    var over := EndPost(h) in acts || Send(h, false) in acts;
    && x.sent == multiset(acts)[Send(h, true)]
    && match x.pc
       case GetFound => Take(h) !in acts && Push(h) !in acts
       case GetTaken => Take(h) in acts && Push(h) !in acts
       case Conflict => Take(h) in acts && Push(h) !in acts
       case GetDone => Take(h) in acts && Push(h) in acts
       case PostFound => CloneTx(h) !in acts && !over
       case PostCloned => CloneTx(h) in acts && !over
       case PostDone => CloneTx(h) in acts && over
  }

  predicate NotBegun(h: nat, acts: seq<Action>) {
    && Take(h) !in acts && Push(h) !in acts && CloneTx(h) !in acts && EndPost(h) !in acts
    && Send(h, false) !in acts && Send(h, true) !in acts
  }

  lemma ProgressStep(s: Server, a: Action, h: nat, acts: seq<Action>)
    requires HandlerInv(s) && Enabled(s, a) && h < |s.handlers| && Progress(s.handlers[h], h, acts)
    ensures h < |Apply(s, a).handlers| && Progress(Apply(s, a).handlers[h], h, acts + [a])
  {
    var x, y := s.handlers[h], Apply(s, a).handlers[h];
    if Concerns(a, h) {
      OwnStep(s, a, h);
    } else {
      OtherStep(s, a, h);
    }
  }

  predicate Concerns(a: Action, h: nat) {
    (a.Take? || a.Push? || a.CloneTx? || a.Send? || a.EndPost?) && a.h == h
  }

  /** What a request's own step does to it. */
  lemma OwnStep(s: Server, a: Action, h: nat)
    requires Enabled(s, a) && Concerns(a, h)
    ensures var x, y := s.handlers[h], Apply(s, a).handlers[h];
            && y.sent == x.sent + (if a == Send(h, true) then 1 else 0)
            && (a.Take? ==> x.pc == GetFound && (y.pc == GetTaken || y.pc == Conflict))
            && (a.Push? ==> x.pc == GetTaken && y.pc == GetDone)
            && (a.CloneTx? ==> x.pc == PostFound && y.pc == PostCloned)
            && (a.Send? ==> x.pc == PostCloned && y.pc == (if a.ok then PostCloned else PostDone))
            && (a.EndPost? ==> x.pc == PostCloned && y.pc == PostDone)
  {
  }

  lemma OtherStep(s: Server, a: Action, h: nat)
    requires Enabled(s, a) && h < |s.handlers| && !Concerns(a, h)
    ensures h < |Apply(s, a).handlers| && Apply(s, a).handlers[h] == s.handlers[h]
  {
  }

  lemma NewProgress(s: Server, a: Action, h: nat, acts: seq<Action>)
    requires TableInv(s) && Enabled(s, a) && |s.handlers| <= h && NotBegun(h, acts)
    ensures NotBegun(h, acts + [a])
    ensures h < |Apply(s, a).handlers| ==> Progress(Apply(s, a).handlers[h], h, acts + [a])
  {
    if a.Get? || a.Post? {
      Requested(s, a);
    }
  }

  /** In every state of every run each request has done exactly what its state says. */
  lemma {:induction false} RequestHistory(ss: seq<Server>, acts: seq<Action>, n: nat, h: nat)
    requires Run(ss, acts) && n <= |acts|
    ensures ProgressIs(ss[n], h, acts[..n])
  {
    if n > 0 {
      RequestHistory(ss, acts, n - 1, h);
      assert acts[..n] == acts[..n - 1] + [acts[n - 1]];
      ProgressNext(ss, acts, n - 1, h, acts[..n - 1]);
    }
  }

  predicate ProgressIs(s: Server, h: nat, done: seq<Action>) {
    if h < |s.handlers| then Progress(s.handlers[h], h, done) else NotBegun(h, done)
  }

  lemma ProgressNext(ss: seq<Server>, acts: seq<Action>, n: nat, h: nat, done: seq<Action>)
    requires Run(ss, acts) && n < |acts| && ProgressIs(ss[n], h, done)
    ensures ProgressIs(ss[n + 1], h, done + [acts[n]])
  {
    StepAt(ss, acts, n);
    TableAt(ss, acts, n);
    if h < |ss[n].handlers| {
      ProgressStep(ss[n], acts[n], h, done);
    } else {
      NewProgress(ss[n], acts[n], h, done);
    }
  }

  /** A POST that is over has sent everything, unless its receiver is gone. */
  ghost predicate Sent(s: Server) {
    forall h :: 0 <= h < |s.handlers| && s.handlers[h].pc.PostDone? ==>
      && s.handlers[h].inst < |s.insts|
      && (s.handlers[h].sent == |s.handlers[h].body| || s.insts[s.handlers[h].inst].dropped)
  }

  lemma DroppedStays(s: Server, a: Action)
    requires Enabled(s, a)
    ensures |s.insts| <= |Apply(s, a).insts|
    ensures forall i :: 0 <= i < |s.insts| ==>
              Apply(s, a).insts[i].dropped == (s.insts[i].dropped || a == DropRx(i))
  {
  }

  lemma SentStep(s: Server, a: Action)
    requires TableInv(s) && Sent(s) && Enabled(s, a)
    ensures Sent(Apply(s, a))
  {
    var t := Apply(s, a);
    DroppedStays(s, a);
    forall h | 0 <= h < |t.handlers| && t.handlers[h].pc.PostDone?
      ensures t.handlers[h].inst < |t.insts|
      ensures t.handlers[h].sent == |t.handlers[h].body| || t.insts[t.handlers[h].inst].dropped
    {
      if h >= |s.handlers| {
        NewIsNotDone(s, a, h);
      } else if Concerns(a, h) {
        OwnEnd(s, a, h);
      } else {
        OtherStep(s, a, h);
      }
    }
  }

  lemma NewIsNotDone(s: Server, a: Action, h: nat)
    requires TableInv(s) && Enabled(s, a) && |s.handlers| <= h < |Apply(s, a).handlers|
    ensures !Apply(s, a).handlers[h].pc.PostDone?
  {
  }

  lemma OwnEnd(s: Server, a: Action, h: nat)
    requires Enabled(s, a) && Concerns(a, h) && Apply(s, a).handlers[h].pc.PostDone?
    ensures var t := Apply(s, a);
            && t.handlers[h].inst < |t.insts|
            && (t.handlers[h].sent == |t.handlers[h].body| || t.insts[t.handlers[h].inst].dropped)
  {
  }

  lemma {:induction false} RunSent(ss: seq<Server>, acts: seq<Action>, n: nat)
    requires Run(ss, acts) && n <= |acts|
    ensures Sent(ss[n])
  {
    if n > 0 {
      RunSent(ss, acts, n - 1);
      StepAt(ss, acts, n - 1);
      TableAt(ss, acts, n - 1);
      SentStep(ss[n - 1], acts[n - 1]);
    }
  }

  lemma NewIsKept(s: Server, a: Action)
    requires Enabled(s, a)
    ensures forall i :: |s.insts| <= i < |Apply(s, a).insts| ==> !Apply(s, a).insts[i].dropped
  {
  }

  /** Unless the receiving end was dropped, a POST that is over has put its whole body, in order, into the channel of
      the session it was given; one that is not over can send its next item or, once all are sent, end. */
  lemma PostIsSent(ss: seq<Server>, acts: seq<Action>, h: nat)
    requires Run(ss, acts) && h < |ss[|acts|].handlers| && DropRx(ss[|acts|].handlers[h].inst) !in acts
    ensures var s, x := ss[|acts|], ss[|acts|].handlers[h];
            && x.inst < |s.insts|
            && (x.pc.PostDone? ==> FromHandler(s.insts[x.inst].posted, h) == x.body)
            && (x.pc.PostCloned? ==> Enabled(s, if x.sent < |x.body| then Send(h, true) else EndPost(h)))
  {
    var s, x := ss[|acts|], ss[|acts|].handlers[h];
    InvAt(ss, acts, |acts|);
    RunSent(ss, acts, |acts|);
    DroppedIff(ss, acts, |acts|, x.inst);
    assert acts[..|acts|] == acts;
    assert ChannelOk(s, x.inst);
    assert FromHandler(s.insts[x.inst].posted, h) == SentTo(s, x.inst, h);
  }

  /** A request that has found its session gets its lock, unless the session's own task is about to end it. */
  lemma RequestCanGoOn(ss: seq<Server>, acts: seq<Action>, h: nat)
    requires Run(ss, acts) && h < |ss[|acts|].handlers|
    ensures var s, x := ss[|acts|], ss[|acts|].handlers[h];
            && x.inst < |s.insts|
            && (s.insts[x.inst].ttl != Draining(x.inst, true) ==>
                  && (x.pc.GetFound? ==> Enabled(s, Take(h))) && (x.pc.PostFound? ==> Enabled(s, CloneTx(h))))
  {
    TableAt(ss, acts, |acts|);
  }

  // ---- The end of the stream ----

  lemma EndsPosted(s: Server, a: Action, i: nat)
    requires TableInv(s) && Enabled(s, a) && i < |s.insts|
    ensures i < |Apply(s, a).insts|
    ensures END in Apply(s, a).insts[i].posted <==> END in s.insts[i].posted || a == SendEof(i, true)
  {
    if a.Send? || a.SendEof? {
    } else {
      PostedStays(s, a, i);
    }
  }

  lemma PostedStays(s: Server, a: Action, i: nat)
    requires Enabled(s, a) && i < |s.insts| && !a.Send? && !a.SendEof?
    ensures i < |Apply(s, a).insts| && Apply(s, a).insts[i].posted == s.insts[i].posted
  {
  }

  predicate Ended(s: Server, i: nat) {
    i < |s.insts| && END in s.insts[i].posted
  }

  lemma EndedNext(ss: seq<Server>, acts: seq<Action>, n: nat, i: nat)
    requires Run(ss, acts) && n < |acts|
    ensures Ended(ss[n + 1], i) <==> Ended(ss[n], i) || acts[n] == SendEof(i, true)
  {
    StepAt(ss, acts, n);
    TableAt(ss, acts, n);
    if i < |ss[n].insts| {
      EndsPosted(ss[n], acts[n], i);
    } else {
      NewStage(ss[n], acts[n], i);
      NewEnds(ss[n], acts[n], i);
    }
  }

  lemma NewEnds(s: Server, a: Action, i: nat)
    requires Enabled(s, a) && |s.insts| <= i
    ensures !Ended(Apply(s, a), i)
  {
    if i < |Apply(s, a).insts| {
      NewPosted(s, a, i);
    }
  }

  lemma {:induction false} EndPostedIff(ss: seq<Server>, acts: seq<Action>, n: nat, i: nat)
    requires Run(ss, acts) && n <= |acts|
    ensures Ended(ss[n], i) <==> SendEof(i, true) in acts[..n]
  {
    if n > 0 {
      EndPostedIff(ss, acts, n - 1, i);
      EndedNext(ss, acts, n - 1, i);
      DoneMore(acts, n - 1, SendEof(i, true));
    }
  }

  predicate Dropped(s: Server, i: nat) {
    i < |s.insts| && s.insts[i].dropped
  }

  lemma DroppedNext(ss: seq<Server>, acts: seq<Action>, n: nat, i: nat)
    requires Run(ss, acts) && n < |acts|
    ensures Dropped(ss[n + 1], i) <==> Dropped(ss[n], i) || acts[n] == DropRx(i)
    ensures acts[n] == SendEof(i, false) ==> Dropped(ss[n], i)
  {
    StepAt(ss, acts, n);
    TableAt(ss, acts, n);
    DroppedStays(ss[n], acts[n]);
    NewIsKept(ss[n], acts[n]);
  }

  lemma {:induction false} DroppedIff(ss: seq<Server>, acts: seq<Action>, n: nat, i: nat)
    requires Run(ss, acts) && n <= |acts|
    ensures Dropped(ss[n], i) <==> DropRx(i) in acts[..n]
    ensures SendEof(i, false) in acts[..n] ==> Dropped(ss[n], i)
  {
    if n > 0 {
      DroppedIff(ss, acts, n - 1, i);
      DroppedNext(ss, acts, n - 1, i);
      DoneMore(acts, n - 1, DropRx(i));
      DoneMore(acts, n - 1, SendEof(i, false));
    }
  }

  /** A session whose task has come to its end has been sent the end of the stream if the task timed out and the
      receiving end was there, and only if it timed out. */
  lemma TimedOutIsEnded(ss: seq<Server>, acts: seq<Action>, i: nat)
    requires Run(ss, acts) && i < |ss[|acts|].insts| && ss[|acts|].insts[i].ttl.Gone?
    ensures END in ss[|acts|].insts[i].posted ==> TimeOut(i) in acts && Notified(i) !in acts
    ensures TimeOut(i) in acts && DropRx(i) !in acts ==> END in ss[|acts|].insts[i].posted
  {
    TaskHistory(ss, acts, |acts|, i);
    EndPostedIff(ss, acts, |acts|, i);
    DroppedIff(ss, acts, |acts|, i);
    assert acts[..|acts|] == acts;
  }

  // ---- The stream behind a session ----

  /** What a step of the server is to the stream of instance `i`. */
  ghost function OnStream(s: Server, a: Action, i: nat): Option<Reads.Action>
    requires Enabled(s, a)
  {
    match a
    case Send(h, ok) =>
      if ok && s.handlers[h].inst == i then Some(Reads.Arrive(s.handlers[h].body[s.handlers[h].sent])) else None
    case SendEof(j, ok) => if ok && s.insts[j].ttl.target == i then Some(Reads.Arrive(Reorder.Eof)) else None
    case HangUp(j) => if i == j then Some(Reads.Close) else None
    case Read(k, room, r, t) => if s.streams[k] == i then Some(Reads.Read(room, r)) else None
    case _ => None
  }

  ghost function OnStreamAt(ss: seq<Server>, acts: seq<Action>, n: nat, i: nat): Option<Reads.Action>
    requires Run(ss, acts) && n < |acts|
  {
    StepAt(ss, acts, n);
    OnStream(ss[n], acts[n], i)
  }

  /** The steps of the stream of instance `i` in the first `n` steps of a run. */
  ghost function StreamActs(ss: seq<Server>, acts: seq<Action>, n: nat, i: nat): seq<Reads.Action>
    requires Run(ss, acts) && n <= |acts|
  {
    if n == 0 then [] else
      var a := OnStreamAt(ss, acts, n - 1, i);
      StreamActs(ss, acts, n - 1, i) + if a.Some? then [a.value] else []
  }

  lemma OnStreamSteps(s: Server, a: Action, i: nat)
    requires TableInv(s) && Enabled(s, a) && i < |s.insts| && ChannelOk(s, i)
    ensures i < |Apply(s, a).insts|
    ensures var b, h, k := OnStream(s, a, i), s.insts[i].hist, Apply(s, a).insts[i].hist;
            if b.None? then k == h else Reads.Step(h, b.value, k)
  {
    if OnStream(s, a, i).None? {
      NotOnStream(s, a, i);
    } else {
      SomeOnStream(s, a, i);
    }
  }

  lemma NotOnStream(s: Server, a: Action, i: nat)
    requires Enabled(s, a) && i < |s.insts| && OnStream(s, a, i).None?
    ensures i < |Apply(s, a).insts| && Apply(s, a).insts[i].hist == s.insts[i].hist
  {
  }

  lemma SomeOnStream(s: Server, a: Action, i: nat)
    requires TableInv(s) && Enabled(s, a) && i < |s.insts| && OnStream(s, a, i).Some?
    requires s.insts[i].hist.s.open || Silent(s, i)
    ensures i < |Apply(s, a).insts|
    ensures Reads.Step(s.insts[i].hist, OnStream(s, a, i).value, Apply(s, a).insts[i].hist)
  {
  }

  lemma NewStream(s: Server, a: Action, i: nat)
    requires TableInv(s) && HandlerInv(s) && Enabled(s, a) && |s.insts| <= i
    ensures OnStream(s, a, i) == None
    ensures i < |Apply(s, a).insts| ==> Apply(s, a).insts[i].hist == UNTOUCHED
  {
  }

  function HistOf(s: Server, i: nat): Reads.Hist {
    if i < |s.insts| then s.insts[i].hist else UNTOUCHED
  }

  /** The states of the stream of instance `i`, one for each of these steps. */
  ghost function StreamStates(ss: seq<Server>, acts: seq<Action>, n: nat, i: nat): seq<Reads.Hist>
    requires Run(ss, acts) && n <= |acts|
  {
    if n == 0 then [UNTOUCHED] else
      StreamStates(ss, acts, n - 1, i)
      + if OnStreamAt(ss, acts, n - 1, i).Some? then [HistOf(ss[n], i)] else []
  }

  lemma StreamNext(ss: seq<Server>, acts: seq<Action>, n: nat, i: nat)
    requires Run(ss, acts) && n < |acts|
    ensures var b, h, k := OnStreamAt(ss, acts, n, i), HistOf(ss[n], i), HistOf(ss[n + 1], i);
            if b.None? then k == h else Reads.Step(h, b.value, k)
  {
    StepAt(ss, acts, n);
    InvAt(ss, acts, n);
    if i < |ss[n].insts| {
      assert ChannelOk(ss[n], i);
      OnStreamSteps(ss[n], acts[n], i);
    } else {
      NewStream(ss[n], acts[n], i);
    }
  }

  lemma RunMore(hs: seq<Reads.Hist>, acts: seq<Reads.Action>, b: Reads.Action, k: Reads.Hist)
    requires Reads.Run(hs, acts) && Reads.Step(hs[|acts|], b, k)
    ensures Reads.Run(hs + [k], acts + [b])
  {
  }

  /** What happens to a session's stream in a run of the server is a run of the reordering stream. */
  lemma {:induction false} StreamRuns(ss: seq<Server>, acts: seq<Action>, n: nat, i: nat)
    requires Run(ss, acts) && n <= |acts|
    ensures var hs, bs := StreamStates(ss, acts, n, i), StreamActs(ss, acts, n, i);
            Reads.Run(hs, bs) && hs[|bs|] == HistOf(ss[n], i)
  {
    if n > 0 {
      StreamRuns(ss, acts, n - 1, i);
      StreamNext(ss, acts, n - 1, i);
      var b := OnStreamAt(ss, acts, n - 1, i);
      if b.Some? {
        RunMore(StreamStates(ss, acts, n - 1, i), StreamActs(ss, acts, n - 1, i), b.value, HistOf(ss[n], i));
      }
    }
  }

  lemma {:induction false} StreamGrows(ss: seq<Server>, acts: seq<Action>, m: nat, n: nat, i: nat)
    requires Run(ss, acts) && m <= n <= |acts|
    ensures StreamActs(ss, acts, m, i) <= StreamActs(ss, acts, n, i)
    ensures StreamStates(ss, acts, m, i) <= StreamStates(ss, acts, n, i)
  {
    if m < n {
      StreamGrows(ss, acts, m, n - 1, i);
    }
  }

  lemma StreamAt(ss: seq<Server>, acts: seq<Action>, m: nat, i: nat)
    returns (hs: seq<Reads.Hist>, bs: seq<Reads.Action>, j: nat)
    requires Run(ss, acts) && m <= |acts|
    ensures hs == StreamStates(ss, acts, |acts|, i) && bs == StreamActs(ss, acts, |acts|, i)
    ensures j == |StreamActs(ss, acts, m, i)| <= |bs|
    ensures Reads.Run(hs, bs) && hs[j] == HistOf(ss[m], i) && hs[|bs|] == HistOf(ss[|acts|], i)
  {
    hs, bs := StreamStates(ss, acts, |acts|, i), StreamActs(ss, acts, |acts|, i);
    j := |StreamActs(ss, acts, m, i)|;
    StreamRuns(ss, acts, |acts|, i);
    StreamRuns(ss, acts, m, i);
    StreamGrows(ss, acts, m, |acts|, i);
  }

  /** How many reads with room the stream of instance `i` has had after step `m`. */
  ghost function ReadsSince(ss: seq<Server>, acts: seq<Action>, m: nat, i: nat): nat
    requires Run(ss, acts) && m <= |acts|
  {
    StreamGrows(ss, acts, m, |acts|, i);
    Limits.RoomyReads(StreamActs(ss, acts, |acts|, i)[|StreamActs(ss, acts, m, i)|..])
  }

  /** Everything POSTed into a session's channel ahead of any end of the stream is delivered, whatever else GETs, POSTs
      and TTL tasks do: once distinct packets 0 .. n - 1 and any chunks, none empty, are there, as many reads with room
      as they have bytes deliver the packets in order and the chunks in order, interleaved. */
  lemma SessionDelivers(data: nat -> Bytes, n: nat, ss: seq<Server>, acts: seq<Action>, m: nat, i: nat)
    returns (packets: Bytes, chunks: Bytes)
    requires Run(ss, acts) && m <= |acts| && i < |ss[|acts|].insts|
    requires Full.Mixed.PacketsFrom(data, HistOf(ss[|acts|], i).arrived)
    requires Limits.DistinctNums(HistOf(ss[|acts|], i).arrived)
    requires var lead := Full.Lead(HistOf(ss[m], i).arrived);
             && Full.NoEmpty(lead) && (forall k: nat :: k < n ==> Reads.Total(lead, Reads.PktNum)[k] >= 1)
             && ReadsSince(ss, acts, m, i) >= Full.Size(lead)
    ensures Full.Mixed.Shuffle(packets, chunks, HistOf(ss[|acts|], i).got)
    ensures Reads.Upto(data, n) <= packets
    ensures Reads.ChunkBytes(Full.Lead(HistOf(ss[m], i).arrived)) <= chunks
  {
    var hs, bs, j := StreamAt(ss, acts, m, i);
    packets, chunks := Full.AllItemsDelivered(data, n, hs, bs, j);
  }

  predicate ReadsFrom(s: Server, a: Action, i: nat) {
    a.Read? && a.k < |s.streams| && s.streams[a.k] == i
  }

  lemma ClosedStep(s: Server, a: Action, i: nat)
    requires Enabled(s, a)
    ensures HistOf(Apply(s, a), i).s.open <==> HistOf(s, i).s.open && a != HangUp(i)
  {
    if a.Read? {
      PollKeepsOpen(s.insts[s.streams[a.k]].hist.s, a.room, a.t, a.r);
    }
  }

  lemma {:induction false} ClosedIff(ss: seq<Server>, acts: seq<Action>, n: nat, i: nat)
    requires Run(ss, acts) && n <= |acts|
    ensures HistOf(ss[n], i).s.open <==> HangUp(i) !in acts[..n]
  {
    if n > 0 {
      ClosedIff(ss, acts, n - 1, i);
      ClosedNext(ss, acts, n - 1, i);
      DoneMore(acts, n - 1, HangUp(i));
    }
  }

  lemma ClosedNext(ss: seq<Server>, acts: seq<Action>, n: nat, i: nat)
    requires Run(ss, acts) && n < |acts|
    ensures HistOf(ss[n + 1], i).s.open <==> HistOf(ss[n], i).s.open && acts[n] != HangUp(i)
  {
    StepAt(ss, acts, n);
    ClosedStep(ss[n], acts[n], i);
  }

  /** The last sender goes: with the task and all requests of a session over, its channel can be closed, and is then. */
  lemma LastSenderGoes(ss: seq<Server>, acts: seq<Action>, i: nat)
    requires Run(ss, acts) && i < |ss[|acts|].insts| && ss[|acts|].insts[i].ttl.Gone?
    requires forall x :: x in ss[|acts|].handlers && x.inst == i ==> x.pc.GetDone? || x.pc.Conflict? || x.pc.PostDone?
    ensures Enabled(ss[|acts|], HangUp(i)) && !HistOf(Apply(ss[|acts|], HangUp(i)), i).s.open
  {
    ClosedStep(ss[|acts|], HangUp(i), i);
  }

  /** A poll has an outcome in every state, with any room. */
  lemma PollHappens(s: Reorder.State, room: nat) returns (t: Reorder.State, r: Reorder.Poll)
    ensures Reorder.PollStep(s, room, t, r)
  {
    var m := Reorder.Absorb(s);
    if m.leftover != [] {
      var n := Min(|m.leftover|, room);
      t, r := m.(leftover := m.leftover[n..]), Reorder.Ready(m.leftover[..n]);
    } else if m.buffered != [] {
      var n := Min(|m.buffered|, room);
      t, r := m.(buffered := m.buffered[n..]), Reorder.Ready(m.buffered[..n]);
    } else if Reorder.TopIs(m.heap, m.next) {
      t, r := PopHappens(m, room);
    } else if m.eof || (|m.rx| == 0 && m.open) {
      t, r := m, if m.eof then Reorder.Ready([]) else Reorder.Pending;
    } else {
      t, r := TakeHappens(m, room);
    }
  }

  lemma PopHappens(m: Reorder.State, room: nat) returns (t: Reorder.State, r: Reorder.Poll)
    requires m.leftover == [] && m.buffered == [] && Reorder.TopIs(m.heap, m.next)
    ensures Reorder.Finish(m, room, t, r)
  {
    var i: nat :| i < |m.heap| && m.heap[i].num == m.next && Reorder.IsTop(m.heap, i);
    var data := m.heap[i].data;
    var n := Min(|data|, room);
    r := Reorder.Ready(data[..n]);
    t := m.(heap := Reorder.Without(m.heap, i), leftover := data[n..], next := m.next + 1);
    assert Reorder.Pops(m, i, room, t, r);
  }

  lemma TakeHappens(m: Reorder.State, room: nat) returns (t: Reorder.State, r: Reorder.Poll)
    requires Reorder.Idle(m) && !(m.rx == [] && m.open)
    ensures Reorder.Finish(m, room, t, r)
  {
    if |m.rx| == 0 {
      t, r := m.(eof := true), Reorder.Ready([]);
    } else if m.rx[0].Chunk? {
      var n := Min(|m.rx[0].data|, room);
      t, r := m.(rx := m.rx[1..], buffered := m.rx[0].data[n..]), Reorder.Ready(m.rx[0].data[..n]);
    } else {
      t, r := m.(rx := m.rx[1..], eof := true), Reorder.Ready([]);
    }
  }

  /** As long as a stream is not dropped it can be read. */
  lemma StreamCanBeRead(ss: seq<Server>, acts: seq<Action>, k: nat, room: nat)
    returns (t: Reorder.State, r: Reorder.Poll)
    requires Run(ss, acts) && k < |ss[|acts|].streams| && DropRx(ss[|acts|].streams[k]) !in acts
    ensures Enabled(ss[|acts|], Read(k, room, r, t))
  {
    var i := ss[|acts|].streams[k];
    InvAt(ss, acts, |acts|);
    DroppedIff(ss, acts, |acts|, i);
    assert acts[..|acts|] == acts;
    t, r := PollHappens(ss[|acts|].insts[i].hist.s, room);
  }

  /** After the last sender of a session has gone no read of its stream waits, and more reads with room than there is
      work left in it tell the reader the end of the stream. */
  lemma ReaderIsToldTheEnd(ss: seq<Server>, acts: seq<Action>, m: nat, i: nat)
    requires Run(ss, acts) && m <= |acts| && i < |ss[m].insts| && HangUp(i) in acts[..m]
    ensures ReadsSince(ss, acts, m, i) > Full.Weight(ss[m].insts[i].hist.s) ==> HistOf(ss[|acts|], i).s.eof
    ensures forall n :: m <= n < |acts| && ReadsFrom(ss[n], acts[n], i) ==> acts[n].r.Ready?
  {
    var hs, bs, j := StreamAt(ss, acts, m, i);
    ClosedIff(ss, acts, m, i);
    Full.StepsFrom(hs, bs, j);
    Full.ClosedEnds(hs[j..], bs[j..]);
    forall n | m <= n < |acts| && ReadsFrom(ss[n], acts[n], i)
      ensures acts[n].r.Ready?
    {
      StepAt(ss, acts, n);
      ClosedIff(ss, acts, n, i);
      Full.ClosedRead(ss[n].insts[i].hist.s, acts[n].room, acts[n].t, acts[n].r);
    }
  }
}
