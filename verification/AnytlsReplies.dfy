/** What an AnyTLS session answers, said in terms of the frames that come in alone (src/anytls/session.rs). */
module AnytlsReplies {
  import opened Bytes
  import opened AnytlsSession

  // ---- What the frames say ----

  predicate HasSettings(frames: seq<Frame>) {
    exists f :: f in frames && f.cmd == 4
  }

  /** The last version announced in settings, and 1 before any was. */
  function PeerVersion(env: Env, frames: seq<Frame>): byte {
    if |frames| == 0 then 1
    else
      var f := frames[|frames| - 1];
      if f.cmd == 4 && env.version(f.data).Some? then env.version(f.data).value
      else PeerVersion(env, frames[..|frames| - 1])
  }

  /** Frame `i` ends the session: an alert, or a SYN without settings before it. */
  predicate Ends(frames: seq<Frame>, i: nat)
    requires i < |frames|
  {
    frames[i].cmd == 5 || (frames[i].cmd == 1 && !HasSettings(frames[..i]))
  }

  /** The session takes all these frames and goes on. */
  predicate GoesOn(frames: seq<Frame>) {
    forall i :: 0 <= i < |frames| ==> !Ends(frames, i)
  }

  const V2: Bytes := [0x76, 0x3d, 0x32]

  /** The answer to `f` after the frames `before`. */
  function Answer(env: Env, before: seq<Frame>, f: Frame): seq<Frame> {
    var version := PeerVersion(env, before + [f]);
    if f.cmd == 4 then
      (if env.paddingMatches(f.data) then [] else [Frame(6, 0, env.scheme)])
      + (if version >= 2 then [Frame(10, 0, V2)] else [])
    else if f.cmd == 1 then
      if !HasSettings(before) then [Frame(5, 0, env.noSettings)]
      else if version >= 2 then [Frame(7, f.sid, [])] else []
    else if f.cmd == 8 then [Frame(9, f.sid, [])]
    else []
  }

  function Answers(env: Env, frames: seq<Frame>): seq<Frame> {
    if |frames| == 0 then []
    else
      var n := |frames| - 1;
      Answers(env, frames[..n]) + Answer(env, frames[..n], frames[n])
  }

  // ---- The loop ----

  /** The state of the loop after frames none but the last of which ends the session. */
  ghost predicate Matches(env: Env, frames: seq<Frame>, s: State) {
    && (s.settled <==> HasSettings(frames))
    && s.version == PeerVersion(env, frames)
    && (s.stopped <==> |frames| > 0 && Ends(frames, |frames| - 1))
    && s.out == Answers(env, frames)
  }

  lemma SettingsSnoc(frames: seq<Frame>, f: Frame)
    ensures HasSettings(frames + [f]) <==> HasSettings(frames) || f.cmd == 4
  {
    assert forall x :: x in frames + [f] <==> x in frames || x == f;
  }

  lemma Snoc(env: Env, frames: seq<Frame>, f: Frame)
    ensures var all := frames + [f];
            && Answers(env, all) == Answers(env, frames) + Answer(env, frames, f)
            && PeerVersion(env, all)
               == (if f.cmd == 4 && env.version(f.data).Some? then env.version(f.data).value
                   else PeerVersion(env, frames))
            && (Ends(all, |frames|) <==> f.cmd == 5 || (f.cmd == 1 && !HasSettings(frames)))
  {
    var all := frames + [f];
    assert all[..|frames|] == frames && all[|frames|] == f;
  }

  lemma HandleMatches(env: Env, frames: seq<Frame>, s: State, i: nat, f: Frame)
    requires Matches(env, frames, s) && !s.stopped
    ensures Matches(env, frames + [f], Handle(env, s, i, f))
  {
    SettingsSnoc(frames, f);
    Snoc(env, frames, f);
    HandleAnswers(env, frames, s, i, f);
  }

  lemma HandleAnswers(env: Env, frames: seq<Frame>, s: State, i: nat, f: Frame)
    requires s.settled <==> HasSettings(frames)
    requires s.version == PeerVersion(env, frames)
    ensures Handle(env, s, i, f).out == s.out + Answer(env, frames, f)
  {
    Snoc(env, frames, f);
    if f.cmd == 4 {
      SettingsAnswer(env, frames, s, f);
    } else {
      assert s.out + [] == s.out;
    }
  }

  lemma SettingsAnswer(env: Env, frames: seq<Frame>, s: State, f: Frame)
    requires f.cmd == 4 && s.version == PeerVersion(env, frames)
    ensures Settings(env, s, f.data).out == s.out + Answer(env, frames, f)
  {
    Snoc(env, frames, f);
    var pad := if env.paddingMatches(f.data) then [] else [Frame(6, 0, env.scheme)];
    var reply := if PeerVersion(env, frames + [f]) >= 2 then [Frame(10, 0, V2)] else [];
    Assoc(s.out, pad, reply);
  }

  /** From a state that frames `before` have led to. */
  lemma {:induction false} LoopMatches(env: Env, before: seq<Frame>, s: State, i: nat, frames: seq<Frame>)
    returns (used: seq<Frame>)
    requires Matches(env, before, s)
    ensures used <= frames && Matches(env, before + used, Loop(env, s, i, frames))
    ensures used == frames || Loop(env, s, i, frames).stopped
    ensures forall k :: |before| <= k < |before + used| - 1 ==> !Ends(before + used, k)
    ensures s.stopped ==> used == []
    decreases |frames|
  {
    if s.stopped || |frames| == 0 {
      used := [];
      assert before + used == before;
    } else {
      var f := frames[0];
      HandleMatches(env, before, s, i, f);
      var rest := LoopMatches(env, before + [f], Handle(env, s, i, f), i + 1, frames[1..]);
      used := [f] + rest;
      FirstUsed(before, f, rest, frames, Handle(env, s, i, f).stopped);
    }
  }

  lemma FirstUsed(before: seq<Frame>, f: Frame, rest: seq<Frame>, frames: seq<Frame>, stopped: bool)
    requires |frames| > 0 && f == frames[0] && rest <= frames[1..]
    requires stopped <==> Ends(before + [f], |before|)
    requires stopped ==> rest == []
    requires forall k :: |before| < k < |before + [f] + rest| - 1 ==> !Ends(before + [f] + rest, k)
    ensures [f] + rest <= frames && before + ([f] + rest) == before + [f] + rest
    ensures [f] + rest == frames <==> rest == frames[1..]
    ensures forall k :: |before| <= k < |before + ([f] + rest)| - 1 ==> !Ends(before + ([f] + rest), k)
  {
    Assoc(before, [f], rest);
    assert frames == [f] + frames[1..];
    EndsLocal(before + [f], rest);
  }

  lemma EndsLocal(a: seq<Frame>, b: seq<Frame>)
    ensures forall k :: 0 <= k < |a| ==> (Ends(a + b, k) <==> Ends(a, k))
  {
    forall k | 0 <= k < |a|
      ensures Ends(a + b, k) <==> Ends(a, k)
    {
      assert (a + b)[..k] == a[..k];
    }
  }

  // ---- What it gives ----

  /** The session has settings and goes on after these frames exactly if one of them brought settings, none was an
      alert, and no SYN came before the settings. */
  lemma AcceptsIff(env: Env, frames: seq<Frame>)
    ensures var s := Loop(env, START, 0, frames);
            s.settled && !s.stopped <==> HasSettings(frames) && GoesOn(frames)
  {
    var used := LoopMatches(env, [], START, 0, frames);
    assert [] + used == used;
    if used != frames {
      EndsInside(used, frames);
    } else if |used| > 0 {
      LastEnds(used);
    }
  }

  lemma EndsInside(used: seq<Frame>, frames: seq<Frame>)
    requires used <= frames && |used| > 0 && Ends(used, |used| - 1)
    ensures !GoesOn(frames)
  {
    var rest := frames[|used|..];
    assert frames == used + rest;
    EndsLocal(used, rest);
    assert Ends(frames, |used| - 1);
  }

  lemma LastEnds(used: seq<Frame>)
    requires |used| > 0 && forall k :: 0 <= k < |used| - 1 ==> !Ends(used, k)
    ensures GoesOn(used) <==> !Ends(used, |used| - 1)
  {
  }

  /** Everything a session sends: the answers to the frames it takes, in order. */
  lemma SessionAnswers(env: Env, frames: seq<Frame>) returns (used: seq<Frame>)
    ensures used <= frames && Session(env, frames).out == Answers(env, used)
    ensures forall k :: 0 <= k < |used| - 1 ==> !Ends(used, k)
    ensures used == frames || (used != [] && Ends(used, |used| - 1))
  {
    used := LoopMatches(env, [], START, 0, frames);
    assert [] + used == used;
  }

  /** The ids for which a SYNACK is due: every SYN behind settings while the peer's version is at least 2. */
  function Acknowledged(env: Env, frames: seq<Frame>): seq<u32> {
    if |frames| == 0 then []
    else
      var n := |frames| - 1;
      Acknowledged(env, frames[..n])
      + if frames[n].cmd == 1 && HasSettings(frames[..n]) && PeerVersion(env, frames[..n]) >= 2
        then [frames[n].sid] else []
  }

  function SynackIds(frames: seq<Frame>): seq<u32> {
    if |frames| == 0 then []
    else
      var n := |frames| - 1;
      SynackIds(frames[..n]) + if frames[n].cmd == 7 then [frames[n].sid] else []
  }

  lemma {:induction false} SynackIdsJoin(a: seq<Frame>, b: seq<Frame>)
    ensures SynackIds(a + b) == SynackIds(a) + SynackIds(b)
    decreases |b|
  {
    if |b| == 0 {
      assert a + b == a;
    } else {
      var n := |b| - 1;
      SynackIdsJoin(a, b[..n]);
      assert (a + b)[..|a| + n] == a + b[..n] && (a + b)[|a| + n] == b[n];
      Assoc(SynackIds(a), SynackIds(b[..n]), if b[n].cmd == 7 then [b[n].sid] else []);
    }
  }

  lemma AnswerSynacks(env: Env, before: seq<Frame>, f: Frame)
    ensures SynackIds(Answer(env, before, f))
         == if f.cmd == 1 && HasSettings(before) && PeerVersion(env, before) >= 2 then [f.sid] else []
  {
    Snoc(env, before, f);
    if f.cmd == 4 {
      var pad := if env.paddingMatches(f.data) then [] else [Frame(6, 0, env.scheme)];
      var reply := if PeerVersion(env, before + [f]) >= 2 then [Frame(10, 0, V2)] else [];
      SynackIdsJoin(pad, reply);
      OneSynack(Frame(6, 0, env.scheme));
      OneSynack(Frame(10, 0, V2));
    } else if f.cmd == 1 {
      OneSynack(Frame(5, 0, env.noSettings));
      OneSynack(Frame(7, f.sid, []));
    } else {
      OneSynack(Frame(9, f.sid, []));
    }
  }

  lemma OneSynack(f: Frame)
    ensures SynackIds([f]) == if f.cmd == 7 then [f.sid] else []
  {
    assert [f][..0] == [];
  }

  lemma {:induction false} AnswersSynacks(env: Env, frames: seq<Frame>)
    ensures SynackIds(Answers(env, frames)) == Acknowledged(env, frames)
  {
    if |frames| == 0 {
    } else {
      var n := |frames| - 1;
      AnswersSynacks(env, frames[..n]);
      AnswerSynacks(env, frames[..n], frames[n]);
      SynackIdsJoin(Answers(env, frames[..n]), Answer(env, frames[..n], frames[n]));
    }
  }

  /** The SYNACKs a session sends are, in order, one for each SYN it accepts from a peer of version 2 or more, with the
      id of that SYN. */
  lemma SynacksSent(env: Env, frames: seq<Frame>) returns (used: seq<Frame>)
    ensures used <= frames && SynackIds(Session(env, frames).out) == Acknowledged(env, used)
    ensures used == frames || (used != [] && Ends(used, |used| - 1))
  {
    used := SessionAnswers(env, frames);
    AnswersSynacks(env, used);
  }
}
