/** The reading half of an XHTTP logical connection: packets are put back in order (src/common/transport/xhttp.rs). */
module XhttpReorder {
  import opened Bytes

  datatype UploadPacket = Chunk(data: Bytes) | Packet(num: nat, data: Bytes) | Eof

  datatype Entry = Entry(num: nat, data: Bytes)

  datatype Poll = Pending | Ready(got: Bytes)

  /** `rx` is what the upload channel holds, `open` whether a sender is left; `heap` is a bag, its order means
      nothing. */
  datatype State = State(rx: seq<UploadPacket>, open: bool, heap: seq<Entry>, next: nat,
                         leftover: Bytes, buffered: Bytes, eof: bool)

  const FRESH := State([], true, [], 0, [], [], false)

  /** Entry `i` may be the top of the binary heap: no entry has a smaller number. */
  predicate IsTop(heap: seq<Entry>, i: nat) {
    i < |heap| && forall j :: 0 <= j < |heap| ==> heap[i].num <= heap[j].num
  }

  function Without(heap: seq<Entry>, i: nat): seq<Entry>
    requires i < |heap|
  {
    heap[..i] + heap[i + 1..]
  }

  predicate TopIs(heap: seq<Entry>, num: nat) {
    exists i :: 0 <= i < |heap| && heap[i].num == num && IsTop(heap, i)
  }

  predicate Idle(s: State) {
    s.leftover == [] && s.buffered == [] && !TopIs(s.heap, s.next) && !s.eof
  }

  /** The passes of the loop that only move a packet from the channel into the heap. */
  function Absorb(s: State): (r: State)
    ensures r.next == s.next && r.leftover == s.leftover && r.buffered == s.buffered
    ensures r.eof == s.eof && r.open == s.open
    ensures Idle(r) ==> r.rx == [] || !r.rx[0].Packet?
    decreases |s.rx|
  {
    if Idle(s) && |s.rx| > 0 && s.rx[0].Packet?
    then Absorb(s.(rx := s.rx[1..], heap := s.heap + [Entry(s.rx[0].num, s.rx[0].data)]))
    else s
  }

  /** The pass that returns. Only the choice between heap entries with equal numbers is left open. */
  ghost predicate Finish(s: State, room: nat, t: State, r: Poll) {
    if s.leftover != [] then
      var n := Min(|s.leftover|, room);
      r == Ready(s.leftover[..n]) && t == s.(leftover := s.leftover[n..])
    else if s.buffered != [] then
      var n := Min(|s.buffered|, room);
      r == Ready(s.buffered[..n]) && t == s.(buffered := s.buffered[n..])
    else if TopIs(s.heap, s.next) then
      exists i :: 0 <= i < |s.heap| && IsTop(s.heap, i) && Pops(s, i, room, t, r)
    else if s.eof then
      r == Ready([]) && t == s
    else if |s.rx| == 0 then
      if s.open then r == Pending && t == s else r == Ready([]) && t == s.(eof := true)
    else if s.rx[0].Chunk? then
      var n := Min(|s.rx[0].data|, room);
      r == Ready(s.rx[0].data[..n]) && t == s.(rx := s.rx[1..], buffered := s.rx[0].data[n..])
    else
      r == Ready([]) && t == s.(rx := s.rx[1..], eof := true)
  }

  ghost predicate Pops(s: State, i: nat, room: nat, t: State, r: Poll)
    requires i < |s.heap|
  {
    var data := s.heap[i].data;
    var n := Min(|data|, room);
    r == Ready(data[..n]) && t == s.(heap := Without(s.heap, i), leftover := data[n..], next := s.next + 1)
  }

  /** What `poll_read` may do with a buffer that has `room` bytes left. */
  ghost predicate PollStep(s: State, room: nat, t: State, r: Poll) {
    Finish(Absorb(s), room, t, r)
  }

  lemma {:induction false} TopExists(heap: seq<Entry>) returns (i: nat)
    requires heap != []
    ensures IsTop(heap, i)
  {
    if |heap| == 1 {
      i := 0;
    } else {
      i := TopExists(heap[..|heap| - 1]);
      if heap[|heap| - 1].num < heap[i].num {
        i := |heap| - 1;
      }
    }
  }

  lemma TopDecides(heap: seq<Entry>, top: nat, num: nat)
    requires IsTop(heap, top)
    ensures TopIs(heap, num) <==> heap[top].num == num
  {
    forall i | 0 <= i < |heap| && IsTop(heap, i)
      ensures heap[i].num == heap[top].num
    {
      assert heap[i].num <= heap[top].num && heap[top].num <= heap[i].num;
    }
  }

  class XhttpStream {
    var rx: seq<UploadPacket>
    var open: bool
    var heap: seq<Entry>
    var next: nat
    var leftover: Bytes
    var buffered: Bytes
    var eof: bool

    ghost function View(): State
      reads this
    {
      State(rx, open, heap, next, leftover, buffered, eof)
    }

    constructor ()
      ensures View() == FRESH
    {
      rx, open, heap, next, leftover, buffered, eof := [], true, [], 0, [], [], false;
    }

    method PollRead(room: nat) returns (r: Poll)
      modifies this
      ensures PollStep(old(View()), room, View(), r)
    {
      ghost var absorbed := Absorb(View());
      while true
        invariant Absorb(View()) == absorbed
        decreases |rx|
      {
        ghost var s := View();
        if |leftover| > 0 {
          var n := Min(|leftover|, room);
          r := Ready(leftover[..n]);
          leftover := leftover[n..];
          return;
        }
        if |buffered| > 0 {
          var n := Min(|buffered|, room);
          r := Ready(buffered[..n]);
          buffered := buffered[n..];
          return;
        }
        if |heap| > 0 {
          ghost var w := TopExists(heap);
          var top :| 0 <= top < |heap| && IsTop(heap, top);
          TopDecides(heap, top, next);
          if heap[top].num == next {
            var data := heap[top].data;
            var n := Min(|data|, room);
            r := Ready(data[..n]);
            heap, leftover, next := Without(heap, top), data[n..], next + 1;
            assert Pops(s, top, room, View(), r);
            return;
          }
        }
        if eof {
          return Ready([]);
        }
        if |rx| == 0 {
          if open {
            return Pending;
          }
          eof := true;
          return Ready([]);
        }
        var pkt := rx[0];
        rx := rx[1..];
        match pkt {
          case Chunk(data) =>
            var n := Min(|data|, room);
            r := Ready(data[..n]);
            buffered := data[n..];
            return;
          case Packet(num, data) =>
            heap := heap + [Entry(num, data)];
          case Eof =>
            eof := true;
            return Ready([]);
        }
      }
    }
  }
}
