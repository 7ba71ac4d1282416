/** A TUIC connection as concurrent tasks over shared state, step by step (src/tuic/connection.rs). */
module TuicConnection {
  import opened Bytes

  datatype Mode = Quic | Native

  /** Where an Authenticate command is. `set` is the three steps from `SetUuid` to `SetDone`. */
  datatype AuthPc = CheckTwice | Validate | SetUuid | SetFlag | Notify | SetDone | Rejected

  /** What waits behind the gate: a Connect on a bidirectional stream, or a packet from a stream or a datagram. */
  datatype Work = Dial | FromStream(assoc: u16, fragTotal: byte) | FromDatagram(assoc: u16, fragTotal: byte)

  /** Where a gated task is. `wait` is the steps from `WaitCheck` to `Asleep`; its notification may come any time after
      it was created, polled or not. */
  datatype GatePc =
    | Check
    | WaitCheck
    | WaitRegister
    | Registered(notified: bool)
    | Asleep(notified: bool)
    | Passed
    | Dialling
    | ModeKnown
    | Resolved
    | Over

  datatype Task =
    | Auth(uuid: Bytes, token: Bytes, at: AuthPc)
    | Gated(work: Work, pc: GatePc)
    | Reply(assoc: u16, sent: bool)

  datatype Event =
    | Validated(uuid: Bytes, token: Bytes)
    | FirstMode(mode: Mode)
    | Dialled
    | Connected
    | SessionTried(assoc: u16, created: bool)
    | Replied(mode: Mode)

  datatype Conn = Conn(uuid: Option<Bytes>, flag: bool, mode: Option<Mode>, sessions: set<u16>,
                       tasks: seq<Task>, log: seq<Event>)

  const FRESH := Conn(None, false, None, {}, [], [])

  datatype Action =
    | Spawn(task: Task)
    | AuthStep(t: nat)
    | GateStep(t: nat)
    | TimeOut(t: nat)
    | WorkStep(t: nat, ok: bool)
    | Dissociate(assoc: u16)
    | SendReply(t: nat)

  predicate Waiting(pc: GatePc) {
    pc.WaitCheck? || pc.WaitRegister? || pc.Registered? || pc.Asleep?
  }

  predicate Working(pc: GatePc) {
    pc.Passed? || pc.Dialling? || pc.ModeKnown? || pc.Resolved?
  }

  predicate Enabled(s: Conn, a: Action) {
    match a
    case Spawn(task) =>
      (match task
       case Auth(_, _, at) => at == CheckTwice
       case Gated(_, pc) => pc == Check
       case Reply(assoc, sent) => !sent && SessionTried(assoc, true) in s.log)
    case AuthStep(t) => t < |s.tasks| && s.tasks[t].Auth? && !s.tasks[t].at.SetDone? && !s.tasks[t].at.Rejected?
    case GateStep(t) => t < |s.tasks| && s.tasks[t].Gated? && (s.tasks[t].pc.Check? || Waiting(s.tasks[t].pc))
                        && s.tasks[t].pc != Asleep(false)
    case TimeOut(t) => t < |s.tasks| && s.tasks[t].Gated? && Waiting(s.tasks[t].pc)
    case WorkStep(t, ok) => t < |s.tasks| && s.tasks[t].Gated? && Working(s.tasks[t].pc)
    case Dissociate(assoc) => true
    case SendReply(t) => t < |s.tasks| && s.tasks[t].Reply? && !s.tasks[t].sent
  }

  function SetTask(s: Conn, t: nat, task: Task): Conn
    requires t < |s.tasks|
  {
    s.(tasks := s.tasks[t := task])
  }

  function Wake(task: Task): Task {
    if task.Gated? && task.pc.Registered? then task.(pc := Registered(true))
    else if task.Gated? && task.pc.Asleep? then task.(pc := Asleep(true))
    else task
  }

  /** `notify_waiters` */
  function WakeAll(tasks: seq<Task>): (r: seq<Task>)
    ensures |r| == |tasks| && forall i :: 0 <= i < |tasks| ==> r[i] == Wake(tasks[i])
  {
    seq(|tasks|, i requires 0 <= i < |tasks| => Wake(tasks[i]))
  }

  function AuthNext(valid: (Bytes, Bytes) -> bool, s: Conn, t: nat): Conn
    requires Enabled(s, AuthStep(t))
  {
    var task := s.tasks[t];
    match task.at
    case CheckTwice => SetTask(s, t, task.(at := if s.flag then Rejected else Validate))
    case Validate =>
      if valid(task.uuid, task.token)
      then SetTask(s, t, task.(at := SetUuid)).(log := s.log + [Validated(task.uuid, task.token)])
      else SetTask(s, t, task.(at := Rejected))
    case SetUuid => SetTask(s, t, task.(at := SetFlag)).(uuid := Some(task.uuid))
    case SetFlag => SetTask(s, t, task.(at := Notify)).(flag := true)
    case Notify => SetTask(s, t, task.(at := SetDone)).(tasks := WakeAll(s.tasks)[t := task.(at := SetDone)])
    case SetDone => s
    case Rejected => s
  }

  function GateNext(s: Conn, pc: GatePc): GatePc {
    match pc
    case Check => if s.flag then Passed else WaitCheck
    case WaitCheck => if s.flag then Passed else WaitRegister
    case WaitRegister => Registered(false)
    case Registered(n) => if s.flag then Passed else Asleep(n)
    case Asleep(n) => if n then Passed else pc
    case _ => pc
  }

  function ModeOf(w: Work): Mode {
    if w.FromStream? then Quic else Native
  }

  /** Behind the gate. `ok` says whether what lies outside succeeds: parsing, dialling, name resolution, opening the
      socket. A dial is logged when it begins, and the attempt to create a session whatever comes of it. */
  function WorkNext(s: Conn, t: nat, ok: bool): Conn
    requires Enabled(s, WorkStep(t, ok))
  {
    var task := s.tasks[t];
    var over := SetTask(s, t, task.(pc := Over));
    match task.pc
    case Passed =>
      if !ok then over
      else if task.work.Dial? then SetTask(s, t, task.(pc := Dialling)).(log := s.log + [Dialled])
      else FirstPacket(SetTask(s, t, task.(pc := ModeKnown)), ModeOf(task.work))
    case Dialling => if ok then over.(log := s.log + [Connected]) else over
    case ModeKnown =>
      if ok && !task.work.Dial? && task.work.fragTotal == 1 then SetTask(s, t, task.(pc := Resolved)) else over
    case _ =>
      if task.work.Dial? || task.work.assoc in s.sessions then over
      else over.(sessions := if ok then s.sessions + {task.work.assoc} else s.sessions,
                 log := s.log + [SessionTried(task.work.assoc, ok)])
  }

  /** The first packet of all sets the mode. */
  function FirstPacket(s: Conn, mode: Mode): Conn {
    if s.mode.Some? then s else s.(mode := Some(mode), log := s.log + [FirstMode(mode)])
  }

  /** The mode a reply is sent with: a stream if the mode is Quic, a datagram otherwise. */
  function ReplyMode(s: Conn): Mode {
    if s.mode == Some(Quic) then Quic else Native
  }

  function Apply(valid: (Bytes, Bytes) -> bool, s: Conn, a: Action): Conn
    requires Enabled(s, a)
  {
    match a
    case Spawn(task) => s.(tasks := s.tasks + [task])
    case AuthStep(t) => AuthNext(valid, s, t)
    case GateStep(t) => SetTask(s, t, s.tasks[t].(pc := GateNext(s, s.tasks[t].pc)))
    case TimeOut(t) => SetTask(s, t, s.tasks[t].(pc := Over))
    case WorkStep(t, ok) => WorkNext(s, t, ok)
    case Dissociate(assoc) => s.(sessions := s.sessions - {assoc})
    case SendReply(t) => SetTask(s, t, s.tasks[t].(sent := true)).(log := s.log + [Replied(ReplyMode(s))])
  }

  // ---- The invariant ----

  ghost predicate Authenticated(valid: (Bytes, Bytes) -> bool, log: seq<Event>) {
    exists e :: e in log && e.Validated? && valid(e.uuid, e.token)
  }

  /** That user has shown a token that is valid for it. */
  ghost predicate Shown(valid: (Bytes, Bytes) -> bool, log: seq<Event>, uuid: Bytes) {
    exists e :: e in log && e.Validated? && e.uuid == uuid && valid(uuid, e.token)
  }

  /** What each task's position says about the shared state. */
  ghost predicate TaskOk(valid: (Bytes, Bytes) -> bool, s: Conn, x: Task) {
    match x
    case Auth(_, _, at) =>
      && (at.SetUuid? || at.SetFlag? ==> Authenticated(valid, s.log))
      && (at.SetUuid? ==> Shown(valid, s.log, x.uuid))
      && (at.SetFlag? ==> s.uuid.Some?)
      && (at.Notify? || at.SetDone? ==> s.flag)
    case Gated(_, pc) =>
      && (Working(pc) || pc == Registered(true) || pc == Asleep(true) ==> s.flag)
      && (pc.ModeKnown? || pc.Resolved? ==> s.mode.Some?)
      && (pc.ModeKnown? ==> !x.work.Dial?)
      && (pc.Resolved? ==> !x.work.Dial? && x.work.fragTotal == 1)
    case Reply(_, _) => s.mode.Some?
  }

  ghost predicate EventOk(valid: (Bytes, Bytes) -> bool, s: Conn, j: nat)
    requires j < |s.log|
  {
    match s.log[j]
    case Validated(_, _) => true
    case FirstMode(m) => s.mode == Some(m)
    case Dialled => Authenticated(valid, s.log[..j])
    case Connected => Authenticated(valid, s.log[..j])
    case SessionTried(_, _) => Authenticated(valid, s.log[..j]) && s.mode.Some?
    case Replied(m) => s.mode == Some(m)
  }

  /** No call of `set` has finished while a task sleeps that was not notified. */
  ghost predicate NoLostWakeup(s: Conn) {
    forall t, u :: 0 <= t < |s.tasks| && 0 <= u < |s.tasks| && Unwoken(s.tasks[t]) ==> !Finished(s.tasks[u])
  }

  predicate Unwoken(x: Task) { x.Gated? && x.pc == Asleep(false) }

  predicate Finished(x: Task) { x.Auth? && x.at.SetDone? }

  ghost predicate Shared(valid: (Bytes, Bytes) -> bool, s: Conn) {
    && (s.flag ==> s.uuid.Some? && Authenticated(valid, s.log))
    && (s.uuid.Some? ==> Shown(valid, s.log, s.uuid.value))
    && (s.sessions != {} ==> s.mode.Some?)
    && (s.mode.Some? ==> FirstMode(s.mode.value) in s.log)
  }

  ghost predicate Inv(valid: (Bytes, Bytes) -> bool, s: Conn) {
    && Shared(valid, s)
    && (forall t :: 0 <= t < |s.tasks| ==> TaskOk(valid, s, s.tasks[t]))
    && (forall j :: 0 <= j < |s.log| ==> EventOk(valid, s, j))
    && NoLostWakeup(s)
  }

  /** Shared state only grows: what a position relied on stays true. */
  ghost predicate Grows(s: Conn, t: Conn) {
    && s.log <= t.log && (s.flag ==> t.flag) && (s.uuid.Some? ==> t.uuid.Some?)
    && (s.mode.Some? ==> t.mode == s.mode)
  }

  lemma StepGrows(valid: (Bytes, Bytes) -> bool, s: Conn, a: Action)
    requires Enabled(s, a)
    ensures Grows(s, Apply(valid, s, a))
  {
  }

  lemma EvidenceStays(valid: (Bytes, Bytes) -> bool, a: seq<Event>, b: seq<Event>)
    requires a <= b && Authenticated(valid, a)
    ensures Authenticated(valid, b)
  {
    var e :| e in a && e.Validated? && valid(e.uuid, e.token);
    var i :| 0 <= i < |a| && a[i] == e;
    assert b[i] == e;
  }

  lemma ShownStays(valid: (Bytes, Bytes) -> bool, a: seq<Event>, b: seq<Event>, uuid: Bytes)
    requires a <= b && Shown(valid, a, uuid)
    ensures Shown(valid, b, uuid)
  {
    var e :| e in a && e.Validated? && e.uuid == uuid && valid(uuid, e.token);
    var i :| 0 <= i < |a| && a[i] == e;
    assert b[i] == e;
  }

  lemma TaskStays(valid: (Bytes, Bytes) -> bool, s: Conn, t: Conn, x: Task)
    requires TaskOk(valid, s, x) && Grows(s, t)
    ensures TaskOk(valid, t, x)
  {
    if Authenticated(valid, s.log) {
      EvidenceStays(valid, s.log, t.log);
    }
    if x.Auth? && x.at.SetUuid? {
      ShownStays(valid, s.log, t.log, x.uuid);
    }
  }

  lemma EventStays(valid: (Bytes, Bytes) -> bool, s: Conn, t: Conn, j: nat)
    requires j < |s.log| && EventOk(valid, s, j) && Grows(s, t)
    ensures EventOk(valid, t, j)
  {
    assert t.log[j] == s.log[j] && t.log[..j] == s.log[..j];
  }

  /** The task that moves: its new position is justified by the new state. */
  lemma MovedTask(valid: (Bytes, Bytes) -> bool, s: Conn, a: Action, t: nat)
    requires Inv(valid, s) && Enabled(s, a) && !a.Spawn? && !a.Dissociate? && t == a.t
    ensures TaskOk(valid, Apply(valid, s, a), Apply(valid, s, a).tasks[t])
  {
    var n := Apply(valid, s, a);
    StepGrows(valid, s, a);
    assert TaskOk(valid, s, s.tasks[t]);
    if Authenticated(valid, s.log) {
      EvidenceStays(valid, s.log, n.log);
    }
    if a.AuthStep? && s.tasks[t].at == Validate && n.tasks[t].at == SetUuid {
      assert n.log[|s.log|] == Validated(s.tasks[t].uuid, s.tasks[t].token);
      assert n.log[|s.log|] in n.log;
    }
  }

  lemma TasksStep(valid: (Bytes, Bytes) -> bool, s: Conn, a: Action)
    requires Inv(valid, s) && Enabled(s, a)
    ensures var n := Apply(valid, s, a); forall t :: 0 <= t < |n.tasks| ==> TaskOk(valid, n, n.tasks[t])
  {
    var n := Apply(valid, s, a);
    StepGrows(valid, s, a);
    forall t | 0 <= t < |n.tasks|
      ensures TaskOk(valid, n, n.tasks[t])
    {
      if t == |s.tasks| {
        SpawnedTask(valid, s, a);
      } else if !a.Spawn? && !a.Dissociate? && t == a.t {
        MovedTask(valid, s, a, t);
      } else {
        OtherTask(valid, s, a, t);
      }
    }
  }

  lemma SpawnedTask(valid: (Bytes, Bytes) -> bool, s: Conn, a: Action)
    requires Inv(valid, s) && Enabled(s, a) && a.Spawn?
    ensures TaskOk(valid, Apply(valid, s, a), a.task)
  {
    if a.task.Reply? {
      var j :| 0 <= j < |s.log| && s.log[j] == SessionTried(a.task.assoc, true);
      assert EventOk(valid, s, j);
    }
  }

  lemma OtherTask(valid: (Bytes, Bytes) -> bool, s: Conn, a: Action, t: nat)
    requires Inv(valid, s) && Enabled(s, a) && t < |s.tasks| && (a.Spawn? || a.Dissociate? || t != a.t)
    ensures TaskOk(valid, Apply(valid, s, a), Apply(valid, s, a).tasks[t])
  {
    var n := Apply(valid, s, a);
    StepGrows(valid, s, a);
    assert TaskOk(valid, s, s.tasks[t]);
    TaskStays(valid, s, n, s.tasks[t]);
    if a.AuthStep? && s.tasks[a.t].at == Notify {
      assert TaskOk(valid, s, s.tasks[a.t]);
      assert n.tasks[t] == Wake(s.tasks[t]);
    } else {
      assert n.tasks[t] == s.tasks[t];
    }
  }

  lemma EventsStep(valid: (Bytes, Bytes) -> bool, s: Conn, a: Action)
    requires Inv(valid, s) && Enabled(s, a)
    ensures var n := Apply(valid, s, a); forall j :: 0 <= j < |n.log| ==> EventOk(valid, n, j)
  {
    var n := Apply(valid, s, a);
    StepGrows(valid, s, a);
    forall j | 0 <= j < |n.log|
      ensures EventOk(valid, n, j)
    {
      if j < |s.log| {
        EventStays(valid, s, n, j);
      } else {
        NewEvent(valid, s, a);
      }
    }
  }

  lemma NewEvent(valid: (Bytes, Bytes) -> bool, s: Conn, a: Action)
    requires Inv(valid, s) && Enabled(s, a) && |Apply(valid, s, a).log| > |s.log|
    ensures var n := Apply(valid, s, a); |n.log| == |s.log| + 1 && EventOk(valid, n, |s.log|)
  {
    var n := Apply(valid, s, a);
    assert n.log[..|s.log|] == s.log;
    assert TaskOk(valid, s, s.tasks[a.t]);
    match a
    case AuthStep(t) => assert n.log[|s.log|].Validated?;
    case WorkStep(t, ok) =>
      assert s.flag;
      assert n.log[|s.log|].SessionTried? ==> n.mode == s.mode;
    case SendReply(t) => assert s.mode.value.Quic? || s.mode.value.Native?;
  }

  lemma WakeupStep(valid: (Bytes, Bytes) -> bool, s: Conn, a: Action)
    requires Inv(valid, s) && Enabled(s, a)
    ensures NoLostWakeup(Apply(valid, s, a))
  {
    var n := Apply(valid, s, a);
    if a.AuthStep? && s.tasks[a.t].at == Notify {
      assert forall t :: 0 <= t < |n.tasks| ==> !Unwoken(n.tasks[t]);
    } else {
      NoneFinishes(valid, s, a);
      if s.flag {
        NoneFallsAsleep(valid, s, a);
      }
      assert forall u :: 0 <= u < |s.tasks| && Finished(s.tasks[u]) ==> TaskOk(valid, s, s.tasks[u]) && s.flag;
    }
  }

  /** Only the notification ends a call of `set`. */
  lemma NoneFinishes(valid: (Bytes, Bytes) -> bool, s: Conn, a: Action)
    requires Enabled(s, a) && !(a.AuthStep? && s.tasks[a.t].at == Notify)
    ensures var n := Apply(valid, s, a);
            forall u :: 0 <= u < |n.tasks| && Finished(n.tasks[u]) ==> u < |s.tasks| && Finished(s.tasks[u])
  {
  }

  /** With the flag set nobody falls asleep without a notification. */
  lemma NoneFallsAsleep(valid: (Bytes, Bytes) -> bool, s: Conn, a: Action)
    requires Enabled(s, a) && s.flag && !(a.AuthStep? && s.tasks[a.t].at == Notify)
    ensures var n := Apply(valid, s, a);
            forall t :: 0 <= t < |n.tasks| && Unwoken(n.tasks[t]) ==> t < |s.tasks| && Unwoken(s.tasks[t])
  {
  }

  lemma UuidStep(valid: (Bytes, Bytes) -> bool, s: Conn, a: Action)
    requires Inv(valid, s) && Enabled(s, a)
    ensures var n := Apply(valid, s, a); n.uuid.Some? ==> Shown(valid, n.log, n.uuid.value)
  {
    var n := Apply(valid, s, a);
    StepGrows(valid, s, a);
    if a.AuthStep? && s.tasks[a.t].at == SetUuid {
      assert TaskOk(valid, s, s.tasks[a.t]);
      ShownStays(valid, s.log, n.log, s.tasks[a.t].uuid);
    } else if s.uuid.Some? {
      ShownStays(valid, s.log, n.log, s.uuid.value);
    }
  }

  lemma SharedStep(valid: (Bytes, Bytes) -> bool, s: Conn, a: Action)
    requires Inv(valid, s) && Enabled(s, a)
    ensures Shared(valid, Apply(valid, s, a))
  {
    var n := Apply(valid, s, a);
    StepGrows(valid, s, a);
    if Authenticated(valid, s.log) {
      EvidenceStays(valid, s.log, n.log);
    }
    if !a.Spawn? && !a.Dissociate? {
      assert TaskOk(valid, s, s.tasks[a.t]);
    }
    UuidStep(valid, s, a);
    if s.mode.Some? {
      var i :| 0 <= i < |s.log| && s.log[i] == FirstMode(s.mode.value);
      assert n.log[i] == s.log[i];
    } else if n.mode.Some? {
      assert n.log[|s.log|] == FirstMode(n.mode.value);
    }
  }

  ghost predicate Run(valid: (Bytes, Bytes) -> bool, ss: seq<Conn>, acts: seq<Action>) {
    && |ss| == |acts| + 1 && ss[0] == FRESH
    && forall n :: 0 <= n < |acts| ==> Enabled(ss[n], acts[n]) && ss[n + 1] == Apply(valid, ss[n], acts[n])
  }

  /** The invariant holds after every step of every interleaving. */
  lemma {:induction false} RunKeepsInv(valid: (Bytes, Bytes) -> bool, ss: seq<Conn>, acts: seq<Action>)
    requires Run(valid, ss, acts)
    ensures Inv(valid, ss[|acts|])
  {
    if |acts| == 0 {
    } else {
      var n := |acts| - 1;
      RunKeepsInv(valid, ss[..n + 1], acts[..n]);
      assert Enabled(ss[n], acts[n]) && ss[n + 1] == Apply(valid, ss[n], acts[n]);
      TasksStep(valid, ss[n], acts[n]);
      EventsStep(valid, ss[n], acts[n]);
      WakeupStep(valid, ss[n], acts[n]);
      SharedStep(valid, ss[n], acts[n]);
    }
  }

  // ---- What it gives ----

  /** Before every TCP dial and every attempt to create a UDP session, whatever comes of it, some Authenticate
      command has shown a valid token. */
  lemma NothingBeforeAuth(valid: (Bytes, Bytes) -> bool, ss: seq<Conn>, acts: seq<Action>, j: nat)
    requires Run(valid, ss, acts) && j < |ss[|acts|].log|
    requires var e := ss[|acts|].log[j]; e.Dialled? || e.Connected? || e.SessionTried?
    ensures exists i :: 0 <= i < j && var e := ss[|acts|].log[i]; e.Validated? && valid(e.uuid, e.token)
  {
    RunKeepsInv(valid, ss, acts);
    var s := ss[|acts|];
    assert EventOk(valid, s, j);
    var e :| e in s.log[..j] && e.Validated? && valid(e.uuid, e.token);
    var i :| 0 <= i < j && s.log[..j][i] == e;
    assert s.log[i] == e;
  }

  /** A mode, once set, is the mode in every later state of the run. */
  lemma {:induction false} ModeIsFinal(valid: (Bytes, Bytes) -> bool, ss: seq<Conn>, acts: seq<Action>, i: nat)
    requires Run(valid, ss, acts) && i <= |acts| && ss[i].mode.Some?
    ensures ss[|acts|].mode == ss[i].mode
    decreases |acts|
  {
    if i >= |acts| {
    } else {
      var n := |acts| - 1;
      ModeIsFinal(valid, ss[..n + 1], acts[..n], i);
      assert Enabled(ss[n], acts[n]) && ss[n + 1] == Apply(valid, ss[n], acts[n]);
      StepGrows(valid, ss[n], acts[n]);
    }
  }

  /** No session exists while the mode is unset, and every reply uses the mode the first packet set. */
  lemma RepliesUseFirstMode(valid: (Bytes, Bytes) -> bool, ss: seq<Conn>, acts: seq<Action>)
    requires Run(valid, ss, acts)
    ensures var s := ss[|acts|];
            && (s.mode.None? ==> s.sessions == {})
            && (forall j, k :: 0 <= j < |s.log| && 0 <= k < |s.log| && s.log[j].Replied? && s.log[k].FirstMode? ==>
                  s.log[j].mode == s.log[k].mode)
            && (forall j :: 0 <= j < |s.log| && s.log[j].Replied? ==> FirstMode(s.log[j].mode) in s.log)
  {
    RunKeepsInv(valid, ss, acts);
    var s := ss[|acts|];
    forall j | 0 <= j < |s.log| && (s.log[j].Replied? || s.log[j].FirstMode?)
      ensures s.mode == Some(s.log[j].mode)
    {
      assert EventOk(valid, s, j);
    }
  }

  /** Once a call of `set` has finished, no waiter is stuck: each can take its next step, and is through in at
      most two. */
  lemma NoWaiterSleepsForever(valid: (Bytes, Bytes) -> bool, ss: seq<Conn>, acts: seq<Action>, t: nat, u: nat)
    requires Run(valid, ss, acts) && t < |ss[|acts|].tasks| && u < |ss[|acts|].tasks|
    requires var s := ss[|acts|];
             Finished(s.tasks[u]) && s.tasks[t].Gated? && (s.tasks[t].pc.Check? || Waiting(s.tasks[t].pc))
    ensures var s := ss[|acts|];
            && s.flag && s.uuid.Some? && Enabled(s, GateStep(t))
            && var n := Apply(valid, s, GateStep(t));
               n.tasks[t].pc == Passed
               || (Enabled(n, GateStep(t)) && Apply(valid, n, GateStep(t)).tasks[t].pc == Passed)
  {
    RunKeepsInv(valid, ss, acts);
    var s := ss[|acts|];
    assert TaskOk(valid, s, s.tasks[u]);
    assert !Unwoken(s.tasks[t]);
  }

  /** The flag is never seen without the uuid. */
  lemma FlagMeansUuid(valid: (Bytes, Bytes) -> bool, ss: seq<Conn>, acts: seq<Action>)
    requires Run(valid, ss, acts)
    ensures ss[|acts|].flag ==> ss[|acts|].uuid.Some?
  {
    RunKeepsInv(valid, ss, acts);
  }

  /** The user a connection is authenticated as is one that has shown a token valid for that very user. */
  lemma UuidWasShown(valid: (Bytes, Bytes) -> bool, ss: seq<Conn>, acts: seq<Action>)
    requires Run(valid, ss, acts) && ss[|acts|].flag
    ensures var s := ss[|acts|];
            s.uuid.Some? && exists e :: e in s.log && e.Validated? && e.uuid == s.uuid.value && valid(e.uuid, e.token)
  {
    RunKeepsInv(valid, ss, acts);
    var s := ss[|acts|];
    assert Shown(valid, s.log, s.uuid.value);
  }

  // ---- The first packet decides how replies go ----

  /** In state `s` this action is a packet of that kind getting past the gate with its payload. */
  predicate PacketPasses(s: Conn, a: Action, byDatagram: bool) {
    && a.WorkStep? && a.ok && a.t < |s.tasks| && s.tasks[a.t].Gated? && s.tasks[a.t].pc == Passed
    && if byDatagram then s.tasks[a.t].work.FromDatagram? else s.tasks[a.t].work.FromStream?
  }

  lemma {:induction false} FirstPacketStays(valid: (Bytes, Bytes) -> bool, ss: seq<Conn>, acts: seq<Action>, i: nat,
                                            byDatagram: bool)
    requires Run(valid, ss, acts) && i < |acts| && ss[i].mode == None && PacketPasses(ss[i], acts[i], byDatagram)
    ensures ss[|acts|].mode == Some(if byDatagram then Native else Quic)
  {
    assert Enabled(ss[i], acts[i]) && ss[i + 1] == Apply(valid, ss[i], acts[i]);
    ModeIsFinal(valid, ss, acts, i + 1);
  }

  /** If the first packet comes in a datagram every reply is a datagram, and if it comes on a stream every reply is a
      stream: all replies of the run, since before that packet there is none. */
  lemma RepliesFollowFirstPacket(valid: (Bytes, Bytes) -> bool, ss: seq<Conn>, acts: seq<Action>, i: nat,
                                 byDatagram: bool)
    requires Run(valid, ss, acts) && i < |acts| && ss[i].mode == None && PacketPasses(ss[i], acts[i], byDatagram)
    ensures forall j :: 0 <= j < |ss[|acts|].log| && ss[|acts|].log[j].Replied? ==>
              ss[|acts|].log[j] == Replied(if byDatagram then Native else Quic)
    ensures forall j :: 0 <= j < |ss[i].log| ==> !ss[i].log[j].Replied?
  {
    RunKeepsInv(valid, ss, acts);
    assert Run(valid, ss[..i + 1], acts[..i]);
    RunKeepsInv(valid, ss[..i + 1], acts[..i]);
    FirstPacketStays(valid, ss, acts, i, byDatagram);
    var s := ss[|acts|];
    forall j | 0 <= j < |s.log| && s.log[j].Replied?
      ensures s.log[j] == Replied(if byDatagram then Native else Quic)
    {
      assert EventOk(valid, s, j);
    }
    forall j | 0 <= j < |ss[i].log|
      ensures !ss[i].log[j].Replied?
    {
      assert EventOk(valid, ss[i], j);
    }
  }

  /** A reply is sent only after such a first packet. */
  lemma {:induction false} RepliesHaveFirstPacket(valid: (Bytes, Bytes) -> bool, ss: seq<Conn>, acts: seq<Action>)
    returns (i: nat, byDatagram: bool)
    requires Run(valid, ss, acts) && ss[|acts|].mode.Some?
    ensures i < |acts| && ss[i].mode == None && PacketPasses(ss[i], acts[i], byDatagram)
    decreases |acts|
  {
    var n := |acts| - 1;
    assert |acts| > 0;
    assert Enabled(ss[n], acts[n]) && ss[n + 1] == Apply(valid, ss[n], acts[n]);
    if ss[n].mode.Some? {
      i, byDatagram := RepliesHaveFirstPacket(valid, ss[..n + 1], acts[..n]);
    } else {
      i, byDatagram := n, ss[n].tasks[acts[n].t].work.FromDatagram?;
    }
  }

  /** How many replies have been sent. */
  function Replies(log: seq<Event>): nat {
    if |log| == 0 then 0
    else Replies(log[..|log| - 1]) + if log[|log| - 1].Replied? then 1 else 0
  }

  function SendsIn(acts: seq<Action>): nat {
    if |acts| == 0 then 0
    else SendsIn(acts[..|acts| - 1]) + if acts[|acts| - 1].SendReply? then 1 else 0
  }

  lemma RepliesSnoc(log: seq<Event>, e: Event)
    ensures Replies(log + [e]) == Replies(log) + if e.Replied? then 1 else 0
  {
    assert (log + [e])[..|log|] == log;
  }

  /** A step adds an event or none, and a reply exactly if it is the step that sends one. */
  lemma ReplyStep(valid: (Bytes, Bytes) -> bool, s: Conn, a: Action)
    requires Enabled(s, a)
    ensures Replies(Apply(valid, s, a).log) == Replies(s.log) + if a.SendReply? then 1 else 0
  {
    var n := Apply(valid, s, a);
    if n.log != s.log {
      assert n.log == s.log + [n.log[|s.log|]];
      RepliesSnoc(s.log, n.log[|s.log|]);
    }
  }

  /** Each reply that a task has to send is sent once. */
  lemma {:induction false} EveryReplyIsSent(valid: (Bytes, Bytes) -> bool, ss: seq<Conn>, acts: seq<Action>)
    requires Run(valid, ss, acts)
    ensures Replies(ss[|acts|].log) == SendsIn(acts)
    decreases |acts|
  {
    if |acts| > 0 {
      var n := |acts| - 1;
      EveryReplyIsSent(valid, ss[..n + 1], acts[..n]);
      assert Enabled(ss[n], acts[n]) && ss[n + 1] == Apply(valid, ss[n], acts[n]);
      ReplyStep(valid, ss[n], acts[n]);
    }
  }

  /** Once a session has been created replies to it can be started, and each one that is started can be sent. */
  lemma RepliesCanBeSent(valid: (Bytes, Bytes) -> bool, s: Conn, assoc: u16)
    requires SessionTried(assoc, true) in s.log
    ensures Enabled(s, Spawn(Reply(assoc, false)))
    ensures var n, t := Apply(valid, s, Spawn(Reply(assoc, false))), |s.tasks|;
            Enabled(n, SendReply(t)) && Apply(valid, n, SendReply(t)).tasks == s.tasks + [Reply(assoc, true)]
  {
  }

  // ---- Waiting at the gate ----

  predicate GatedAt(s: Conn, t: nat, over: bool) {
    t < |s.tasks| && s.tasks[t].Gated? && if over then s.tasks[t].pc.Over? else s.tasks[t].pc.Passed?
  }

  /** A task is over by its time limit, or it has been let through. */
  lemma OverStep(valid: (Bytes, Bytes) -> bool, s: Conn, a: Action, t: nat)
    requires Enabled(s, a) && GatedAt(Apply(valid, s, a), t, true) && !GatedAt(s, t, true)
    ensures a == TimeOut(t) || (t < |s.tasks| && s.tasks[t].Gated? && Working(s.tasks[t].pc))
  {
  }

  lemma WorkingStep(valid: (Bytes, Bytes) -> bool, s: Conn, a: Action, t: nat)
    requires Enabled(s, a) && t < |Apply(valid, s, a).tasks| && Apply(valid, s, a).tasks[t].Gated?
    requires Working(Apply(valid, s, a).tasks[t].pc) && !GatedAt(Apply(valid, s, a), t, false)
    ensures t < |s.tasks| && s.tasks[t].Gated? && Working(s.tasks[t].pc)
  {
  }

  ghost predicate LetThrough(ss: seq<Conn>, n: nat, t: nat)
    requires n < |ss|
  {
    exists m :: 0 <= m <= n && GatedAt(ss[m], t, false)
  }

  lemma {:induction false} WorkingWasLet(valid: (Bytes, Bytes) -> bool, ss: seq<Conn>, acts: seq<Action>, n: nat,
                                         t: nat)
    requires Run(valid, ss, acts) && n <= |acts|
    requires t < |ss[n].tasks| && ss[n].tasks[t].Gated? && Working(ss[n].tasks[t].pc)
    ensures LetThrough(ss, n, t)
  {
    if n > 0 && !GatedAt(ss[n], t, false) {
      assert Enabled(ss[n - 1], acts[n - 1]) && ss[n] == Apply(valid, ss[n - 1], acts[n - 1]);
      WorkingStep(valid, ss[n - 1], acts[n - 1], t);
      WorkingWasLet(valid, ss, acts, n - 1, t);
    } else {
      assert GatedAt(ss[n], t, false);
    }
  }

  /** Whoever comes before the user is authenticated waits: a gated task is over only because its time limit has passed
      or because it was let through. */
  lemma {:induction false} OnlyTimeEndsWaiting(valid: (Bytes, Bytes) -> bool, ss: seq<Conn>, acts: seq<Action>, n: nat,
                                               t: nat)
    requires Run(valid, ss, acts) && n <= |acts| && GatedAt(ss[n], t, true)
    ensures TimeOut(t) in acts[..n] || LetThrough(ss, n, t)
  {
    if n > 0 {
      assert Enabled(ss[n - 1], acts[n - 1]) && ss[n] == Apply(valid, ss[n - 1], acts[n - 1]);
      assert acts[..n] == acts[..n - 1] + [acts[n - 1]];
      if GatedAt(ss[n - 1], t, true) {
        OnlyTimeEndsWaiting(valid, ss, acts, n - 1, t);
      } else {
        OverStep(valid, ss[n - 1], acts[n - 1], t);
        if acts[n - 1] != TimeOut(t) {
          WorkingWasLet(valid, ss, acts, n - 1, t);
        }
      }
    }
  }

  // ---- What the steps do ----

  /** The packet task that creates the session for its association in this step. */
  predicate Creates(s: Conn, a: Action, assoc: u16) {
    && a.WorkStep? && a.ok && a.t < |s.tasks| && s.tasks[a.t].Gated? && s.tasks[a.t].pc == Resolved
    && !s.tasks[a.t].work.Dial? && s.tasks[a.t].work.assoc == assoc
  }

  /** In every run a session appears exactly by an unfragmented packet for it and goes exactly by a Dissociate. */
  lemma SessionsChangeIff(valid: (Bytes, Bytes) -> bool, ss: seq<Conn>, acts: seq<Action>, n: nat, assoc: u16)
    requires Run(valid, ss, acts) && n < |acts|
    ensures assoc in ss[n + 1].sessions
       <==> (assoc in ss[n].sessions && acts[n] != Dissociate(assoc)) || Creates(ss[n], acts[n], assoc)
    ensures Creates(ss[n], acts[n], assoc) ==> ss[n].tasks[acts[n].t].work.fragTotal == 1
  {
    assert Run(valid, ss[..n + 1], acts[..n]);
    RunKeepsInv(valid, ss[..n + 1], acts[..n]);
    var s, a := ss[n], acts[n];
    assert Enabled(s, a) && ss[n + 1] == Apply(valid, s, a);
    if a.WorkStep? {
      assert TaskOk(valid, s, s.tasks[a.t]);
    }
  }

  /** Two steps of a task behind the gate. */
  function Steps2(valid: (Bytes, Bytes) -> bool, s: Conn, t: nat): Conn
    requires Enabled(s, WorkStep(t, true)) && Enabled(Apply(valid, s, WorkStep(t, true)), WorkStep(t, true))
  {
    Apply(valid, Apply(valid, s, WorkStep(t, true)), WorkStep(t, true))
  }

  /** Past the gate a Connect is dialled in its next step and, if that succeeds, connected in the one after. */
  lemma DialHappens(valid: (Bytes, Bytes) -> bool, s: Conn, t: nat)
    requires t < |s.tasks| && s.tasks[t] == Gated(Dial, Passed)
    ensures Enabled(s, WorkStep(t, true)) && Enabled(Apply(valid, s, WorkStep(t, true)), WorkStep(t, true))
    ensures Apply(valid, s, WorkStep(t, true)).log == s.log + [Dialled]
    ensures var n := Steps2(valid, s, t); n.log == s.log + [Dialled, Connected] && n.tasks[t] == Gated(Dial, Over)
  {
    assert s.log + [Dialled] + [Connected] == s.log + [Dialled, Connected];
  }

  /** Past the gate an unfragmented packet has its session after three steps, and a fragment is dropped in two. */
  lemma PacketIsHandled(valid: (Bytes, Bytes) -> bool, s: Conn, t: nat)
    requires t < |s.tasks| && s.tasks[t].Gated? && s.tasks[t].pc == Passed && !s.tasks[t].work.Dial?
    ensures Enabled(s, WorkStep(t, true)) && Enabled(Apply(valid, s, WorkStep(t, true)), WorkStep(t, true))
    ensures var n, work := Steps2(valid, s, t), s.tasks[t].work;
            if work.fragTotal == 1
            then Enabled(n, WorkStep(t, true)) && work.assoc in Apply(valid, n, WorkStep(t, true)).sessions
            else n.tasks[t].pc == Over && n.sessions == s.sessions
  {
  }

  /** `n` steps of one Authenticate command. */
  function AuthSteps(valid: (Bytes, Bytes) -> bool, s: Conn, t: nat, n: nat): Option<Conn>
    decreases n
  {
    if n == 0 then Some(s)
    else if Enabled(s, AuthStep(t)) then AuthSteps(valid, Apply(valid, s, AuthStep(t)), t, n - 1)
    else None
  }

  lemma AuthStepsMore(valid: (Bytes, Bytes) -> bool, s: Conn, t: nat, n: nat)
    requires Enabled(s, AuthStep(t))
    ensures AuthSteps(valid, s, t, n + 1) == AuthSteps(valid, Apply(valid, s, AuthStep(t)), t, n)
  {
  }

  /** An Authenticate command for a connection that is not authenticated yet goes through in its five steps if its token
      is valid, and is rejected in its second if it is not. */
  lemma AuthCompletesIff(valid: (Bytes, Bytes) -> bool, s: Conn, t: nat)
    requires t < |s.tasks| && s.tasks[t].Auth? && s.tasks[t].at == CheckTwice && !s.flag
    ensures var x := s.tasks[t];
            if valid(x.uuid, x.token) then
              var n := AuthSteps(valid, s, t, 5);
              n.Some? && n.value.flag && n.value.uuid == Some(x.uuid)
              && t < |n.value.tasks| && n.value.tasks[t] == x.(at := SetDone)
            else
              var n := AuthSteps(valid, s, t, 2);
              n.Some? && n.value.flag == s.flag && n.value.uuid == s.uuid
              && t < |n.value.tasks| && n.value.tasks[t] == x.(at := Rejected)
  {
    var x := s.tasks[t];
    var s1 := Apply(valid, s, AuthStep(t));
    var s2 := Apply(valid, s1, AuthStep(t));
    AuthStepsMore(valid, s, t, 1);
    AuthStepsMore(valid, s1, t, 0);
    if valid(x.uuid, x.token) {
      var s3 := Apply(valid, s2, AuthStep(t));
      var s4 := Apply(valid, s3, AuthStep(t));
      AuthStepsMore(valid, s, t, 4);
      AuthStepsMore(valid, s1, t, 3);
      AuthStepsMore(valid, s2, t, 2);
      AuthStepsMore(valid, s3, t, 1);
      AuthStepsMore(valid, s4, t, 0);
    }
  }

  /** A second Authenticate command on an authenticated connection changes nothing but its own position. */
  lemma SecondAuthIsRejected(valid: (Bytes, Bytes) -> bool, s: Conn, t: nat)
    requires t < |s.tasks| && s.tasks[t].Auth? && s.tasks[t].at == CheckTwice && s.flag
    ensures Enabled(s, AuthStep(t))
    ensures Apply(valid, s, AuthStep(t)) == s.(tasks := s.tasks[t := s.tasks[t].(at := Rejected)])
  {
  }
}
