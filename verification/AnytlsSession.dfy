/** The AnyTLS session multiplexer: frames in, one channel per stream out (src/anytls/session.rs). */
module AnytlsSession {
  import opened Bytes

  const CMD_SYN: byte := 1
  const CMD_PSH: byte := 2
  const CMD_FIN: byte := 3
  const CMD_SETTINGS: byte := 4
  const CMD_ALERT: byte := 5
  const CMD_UPDATE_PADDING: byte := 6
  const CMD_SYNACK: byte := 7
  const CMD_HEART_REQUEST: byte := 8
  const CMD_HEART_RESPONSE: byte := 9
  const CMD_SERVER_SETTINGS: byte := 10

  const HEADER_SIZE := 7
  const VERSION_2: Bytes := [118, 61, 50]

  datatype Frame = Frame(cmd: byte, sid: u32, data: Bytes)

  // ---- The wire ----

  /** What the writer task puts on the wire; the data length is cast to 16 bits. */
  function EncodeFrame(f: Frame): Bytes {
    [f.cmd] + Be(f.sid, 4) + U16(|f.data| % 0x10000) + f.data
  }

  datatype Parsed = Parsed(frame: Frame, rest: Bytes)

  /** One frame off the wire; `None` when the wire ends before or inside it. */
  function ParseFrame(input: Bytes): Option<Parsed> {
    if |input| < HEADER_SIZE then None
    else
      var end := HEADER_SIZE + GetU16(input[5], input[6]);
      if |input| < end then None
      else Some(Parsed(Frame(input[0], U32(input[1..5]), input[HEADER_SIZE..end]), input[end..]))
  }

  function ParseAll(input: Bytes): seq<Frame>
    decreases |input|
  {
    match ParseFrame(input)
    case None => []
    case Some(p) => [p.frame] + ParseAll(p.rest)
  }

  // ---- The session ----

  /** A stream's channel: its id, what was put into it, and whether its sender is gone. */
  datatype Chan = Chan(sid: u32, items: seq<Bytes>, closed: bool)

  /** What the session gets from outside: the settings parser, the padding scheme, the text of its one alert,
      and `gone(k, i)`: the receiver of channel `k` has been dropped when frame `i` is handled. */
  datatype Env = Env(version: Bytes -> Option<byte>, paddingMatches: Bytes -> bool, scheme: Bytes, noSettings: Bytes,
                     gone: (nat, nat) -> bool)

  /** `chans` lists the channels in the order of their SYN frames; `table` is the map of open streams. */
  datatype State = State(chans: seq<Chan>, table: map<u32, nat>, settled: bool, version: byte,
                         out: seq<Frame>, stopped: bool)

  const START := State([], map[], false, 1, [], false)

  function Put(c: Chan, item: Bytes, gone: bool): Chan {
    if gone then c else c.(items := c.items + [item])
  }

  function Settings(env: Env, s: State, data: Bytes): State {
    var version := if env.version(data).Some? then env.version(data).value else s.version;
    s.(settled := true, version := version,
       out := s.out + (if env.paddingMatches(data) then [] else [Frame(CMD_UPDATE_PADDING, 0, env.scheme)])
                    + (if version >= 2 then [Frame(CMD_SERVER_SETTINGS, 0, VERSION_2)] else []))
  }

  /** The sender of the stream with that id, if any, is dropped. */
  function CloseOld(s: State, sid: u32): seq<Chan> {
    if sid in s.table && s.table[sid] < |s.chans|
    then s.chans[s.table[sid] := s.chans[s.table[sid]].(closed := true)] else s.chans
  }

  function Syn(env: Env, s: State, sid: u32): State {
    if !s.settled then s.(out := s.out + [Frame(CMD_ALERT, 0, env.noSettings)], stopped := true)
    else s.(chans := CloseOld(s, sid) + [Chan(sid, [], false)], table := s.table[sid := |s.chans|],
            out := s.out + if s.version >= 2 then [Frame(CMD_SYNACK, sid, [])] else [])
  }

  function Psh(env: Env, s: State, i: nat, sid: u32, data: Bytes): State {
    if sid in s.table && s.table[sid] < |s.chans| then
      var k := s.table[sid];
      if env.gone(k, i) then s.(chans := CloseOld(s, sid), table := s.table - {sid})
      else s.(chans := s.chans[k := Put(s.chans[k], data, false)])
    else s
  }

  function Fin(env: Env, s: State, i: nat, sid: u32): State {
    if sid in s.table && s.table[sid] < |s.chans| then
      var k := s.table[sid];
      s.(chans := s.chans[k := Put(s.chans[k], [], env.gone(k, i)).(closed := true)], table := s.table - {sid})
    else s
  }

  /** The `match` of the read loop, for frame number `i`. */
  function Handle(env: Env, s: State, i: nat, f: Frame): State {
    if f.cmd == CMD_SETTINGS then Settings(env, s, f.data)
    else if f.cmd == CMD_SYN then Syn(env, s, f.sid)
    else if f.cmd == CMD_PSH then Psh(env, s, i, f.sid, f.data)
    else if f.cmd == CMD_FIN then Fin(env, s, i, f.sid)
    else if f.cmd == CMD_HEART_REQUEST then s.(out := s.out + [Frame(CMD_HEART_RESPONSE, f.sid, [])])
    else if f.cmd == CMD_ALERT then s.(stopped := true)
    else s
  }

  /** The read loop over the frames still to come, up to its end. */
  function Loop(env: Env, s: State, i: nat, frames: seq<Frame>): State
    decreases |frames|
  {
    if s.stopped || |frames| == 0 then s
    else Loop(env, Handle(env, s, i, frames[0]), i + 1, frames[1..])
  }

  /** The frames the loop consumes before it stops. */
  function Consumed(env: Env, s: State, i: nat, frames: seq<Frame>): nat
    decreases |frames|
  {
    if s.stopped || |frames| == 0 then i else Consumed(env, Handle(env, s, i, frames[0]), i + 1, frames[1..])
  }

  /** The EOF marker for every stream still open, after which all senders are gone. */
  function Drained(env: Env, i: nat, chans: seq<Chan>): (r: seq<Chan>)
    ensures |r| == |chans|
  {
    seq(|chans|, k requires 0 <= k < |chans| => EndOf(env, i, chans, k))
  }

  function EndOf(env: Env, i: nat, chans: seq<Chan>, k: nat): Chan
    requires k < |chans|
  {
    if chans[k].closed then chans[k] else Put(chans[k], [], env.gone(k, i)).(closed := true)
  }

  function Session(env: Env, frames: seq<Frame>): State {
    var s := Loop(env, START, 0, frames);
    s.(chans := Drained(env, Consumed(env, START, 0, frames), s.chans), table := map[], stopped := true)
  }

  /** Every open stream is in the table under its id and nothing else is; before settings there are none. */
  ghost predicate Inv(s: State) {
    && (forall x :: x in s.table ==> s.table[x] < |s.chans| && s.chans[s.table[x]].sid == x)
    && (forall k :: 0 <= k < |s.chans| ==>
          (!s.chans[k].closed <==> s.chans[k].sid in s.table && s.table[s.chans[k].sid] == k))
    && (!s.settled ==> s.table == map[] && s.chans == [])
  }

  lemma HandleKeepsInv(env: Env, s: State, i: nat, f: Frame)
    requires Inv(s)
    ensures Inv(Handle(env, s, i, f))
  {
    if f.cmd == CMD_SYN {
      SynKeepsInv(env, s, f.sid);
    } else if f.cmd == CMD_PSH || f.cmd == CMD_FIN {
      CloseKeepsInv(env, s, i, f.sid, f.data);
    }
  }

  lemma SynKeepsInv(env: Env, s: State, sid: u32)
    requires Inv(s)
    ensures Inv(Syn(env, s, sid))
  {
    var t := Syn(env, s, sid);
    if s.settled {
      assert forall k :: 0 <= k < |s.chans| ==> t.chans[k].sid == s.chans[k].sid;
      assert t.chans[|s.chans|] == Chan(sid, [], false);
      assert forall k :: 0 <= k < |s.chans| ==>
        (t.chans[k].closed <==> s.chans[k].closed || s.chans[k].sid == sid);
    }
  }

  lemma CloseKeepsInv(env: Env, s: State, i: nat, sid: u32, data: Bytes)
    requires Inv(s)
    ensures Inv(Psh(env, s, i, sid, data)) && Inv(Fin(env, s, i, sid))
  {
    if sid in s.table {
      var k := s.table[sid];
      var t, u := Psh(env, s, i, sid, data), Fin(env, s, i, sid);
      assert forall j :: 0 <= j < |s.chans| ==> t.chans[j].sid == s.chans[j].sid == u.chans[j].sid;
      assert forall j :: 0 <= j < |s.chans| && j != k ==> t.chans[j] == s.chans[j] == u.chans[j];
    }
  }

  lemma FrameAt(input: Bytes, f: Frame, rest: Bytes)
    requires |input| >= HEADER_SIZE && |input| - HEADER_SIZE >= GetU16(input[5], input[6])
    requires var n := GetU16(input[5], input[6]); var body := input[HEADER_SIZE..];
             f == Frame(input[0], U32(input[..HEADER_SIZE][1..5]), body[..n]) && rest == body[n..]
    ensures ParseFrame(input) == Some(Parsed(f, rest))
  {
    var n := GetU16(input[5], input[6]);
    DropDrop(input, HEADER_SIZE, n);
    assert input[..HEADER_SIZE][1..5] == input[1..5];
    assert input[HEADER_SIZE..][..n] == input[HEADER_SIZE..HEADER_SIZE + n];
  }

  // ---- The objects ----

  class ServerSession {
    const env: Env
    var chans: seq<Chan>
    var table: map<u32, nat>
    var settled: bool
    var version: byte
    var out: seq<Frame>

    ghost function View(stopped: bool): State
      reads this
    {
      State(chans, table, settled, version, out, stopped)
    }

    constructor (env: Env)
      ensures View(false) == START && this.env == env
    {
      this.env, chans, table, settled, version, out := env, [], map[], false, 1, [];
    }

    /** One frame; `stop` is a `break` out of the read loop. */
    method HandleFrame(i: nat, f: Frame) returns (stop: bool)
      requires Inv(View(false))
      modifies this
      ensures View(stop) == Handle(env, old(View(false)), i, f)
    {
      stop := false;
      if f.cmd == CMD_SETTINGS {
        settled := true;
        var v := env.version(f.data);
        if v.Some? {
          version := v.value;
        }
        if !env.paddingMatches(f.data) {
          out := out + [Frame(CMD_UPDATE_PADDING, 0, env.scheme)];
        }
        if version >= 2 {
          out := out + [Frame(CMD_SERVER_SETTINGS, 0, VERSION_2)];
        }
      } else if f.cmd == CMD_SYN {
        if !settled {
          out := out + [Frame(CMD_ALERT, 0, env.noSettings)];
          return true;
        }
        if f.sid in table {
          var k := table[f.sid];
          chans := chans[k := chans[k].(closed := true)];
        }
        table := table[f.sid := |chans|];
        chans := chans + [Chan(f.sid, [], false)];
        if version >= 2 {
          out := out + [Frame(CMD_SYNACK, f.sid, [])];
        }
      } else if f.cmd == CMD_PSH {
        if f.sid in table {
          var k := table[f.sid];
          if env.gone(k, i) {
            chans := chans[k := chans[k].(closed := true)];
            table := table - {f.sid};
          } else {
            chans := chans[k := chans[k].(items := chans[k].items + [f.data])];
          }
        }
      } else if f.cmd == CMD_FIN {
        if f.sid in table {
          EndStream(i, f.sid);
        }
      } else if f.cmd == CMD_HEART_REQUEST {
        out := out + [Frame(CMD_HEART_RESPONSE, f.sid, [])];
      } else if f.cmd == CMD_ALERT {
        stop := true;
      }
    }

    /** Take the sender out of the table, send the EOF marker and drop the sender. */
    method EndStream(i: nat, sid: u32)
      requires sid in table && table[sid] < |chans|
      modifies this`chans, this`table
      ensures View(false) == Fin(env, old(View(false)), i, sid)
    {
      var k := table[sid];
      table := table - {sid};
      chans := chans[k := Put(chans[k], [], env.gone(k, i)).(closed := true)];
    }

    /** `streams.drain()`, in whatever order the map yields its entries. */
    method Drain(i: nat)
      requires Inv(View(false))
      modifies this`chans, this`table
      ensures chans == Drained(env, i, old(chans)) && table == map[]
    {
      ghost var was := chans;
      while table != map[]
        invariant Inv(View(false)) && |chans| == |was|
        invariant forall k :: 0 <= k < |chans| ==> chans[k] == was[k] || chans[k] == EndOf(env, i, was, k)
        decreases |table|
      {
        var sid: u32 :| sid in table;
        CloseKeepsInv(env, View(false), i, sid, []);
        EndStream(i, sid);
      }
      assert forall k :: 0 <= k < |chans| ==> chans[k].closed;
    }

    method RunServerSession(conn: ByteReader)
      requires View(false) == START
      modifies this, conn
      ensures View(true) == Session(env, ParseAll(old(conn.data)))
    {
      ghost var all := ParseAll(conn.data);
      var i, stop := 0, false;
      while !stop
        invariant Inv(View(stop))
        invariant var todo := ParseAll(conn.data);
                  && Loop(env, View(stop), i, todo) == Loop(env, START, 0, all)
                  && Consumed(env, View(stop), i, todo) == Consumed(env, START, 0, all)
        decreases !stop, |conn.data|
      {
        ghost var input, s := conn.data, View(false);
        var hdr := conn.ReadExact(HEADER_SIZE);
        if hdr.None? {
          break;
        }
        var data := conn.ReadExact(GetU16(hdr.value[5], hdr.value[6]));
        if data.None? {
          break;
        }
        var f := Frame(hdr.value[0], U32(hdr.value[1..5]), data.value);
        FrameAt(input, f, conn.data);
        HandleKeepsInv(env, s, i, f);
        stop := HandleFrame(i, f);
        i := i + 1;
      }
      Drain(i);
    }
  }
}
