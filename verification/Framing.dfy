/** redis_client.cpp: how a command travels through the queue - the packet that append_cmd builds, and the loop of
    process_request_queue that takes packets apart and looks their node up. */
module Framing {
  import opened Bytes
  import opened RingLayout
  import opened RingQueue
  import opened HashMix
  import opened HashRing
  import RingProtocol
  import opened RingRuns
  import opened RingDelivery

  datatype Packet = Packet(key: seq<byte>, cmd: seq<byte>)

  /** The buffer of append_cmd, redis_client.cpp, line 309 */
  const PACKET_MAX: nat := 0x10_0000
  const PACKET_HEADER: nat := 8
  /** redis_client.h line 38 */
  const DEQUEUE_BUFFER_SIZE: nat := 0x100_0000
  /** What process_request_queue offers to dequeue, redis_client.cpp, line 787 */
  const DEQUEUE_ROOM: nat := PACKET_HEADER + DEQUEUE_BUFFER_SIZE

  predicate Fits(p: Packet) {
    |p.key| + |p.cmd| <= PACKET_MAX
  }

  function Frame(p: Packet): (f: seq<byte>)
    requires Fits(p)
    ensures |f| == PACKET_HEADER + |p.key| + |p.cmd| && ValidMessage(f)
  {
    Le32(|p.key|) + Le32(|p.cmd|) + (p.key + p.cmd)
  }

  predicate AllFit(ps: seq<Packet>) {
    forall p :: p in ps ==> Fits(p)
  }

  function Frames(ps: seq<Packet>): seq<byte>
    requires AllFit(ps)
  {
    if ps == [] then [] else Frame(ps[0]) + Frames(ps[1..])
  }

  function KeyLen(data: seq<byte>): nat
    requires |data| >= PACKET_HEADER
  {
    FromLe32(data[..4])
  }

  function CmdLen(data: seq<byte>): nat
    requires |data| >= PACKET_HEADER
  {
    FromLe32(data[4..8])
  }

  /** The packets in some bytes, if they are nothing but whole packets. */
  function Unframe(data: seq<byte>): Option<seq<Packet>>
    decreases |data|
  {
    if data == [] then Some([])
    else if |data| < PACKET_HEADER then None
    else
      var k, c := KeyLen(data), CmdLen(data);
      if k + c > PACKET_MAX || |data| < PACKET_HEADER + k + c then None
      else
        var rest := Unframe(data[PACKET_HEADER + k + c..]);
        if rest.None? then None else Some([First(data)] + rest.value)
  }

  function First(data: seq<byte>): Packet
    requires |data| >= PACKET_HEADER && |data| >= PACKET_HEADER + KeyLen(data) + CmdLen(data)
  {
    var k, c := KeyLen(data), CmdLen(data);
    Packet(data[PACKET_HEADER..PACKET_HEADER + k], data[PACKET_HEADER + k..PACKET_HEADER + k + c])
  }

  /** The lengths of key and command, lowest byte first, and then the two. */
  lemma FrameOfGet()
    ensures Frame(Packet([0x6b], [0x47, 0x45, 0x54])) ==
      [0x01, 0x00, 0x00, 0x00, 0x03, 0x00, 0x00, 0x00, 0x6b, 0x47, 0x45, 0x54]
  {
  }

  lemma FirstOfFrame(p: Packet, rest: seq<byte>)
    requires Fits(p)
    ensures var d := Frame(p) + rest;
            KeyLen(d) == |p.key| && CmdLen(d) == |p.cmd| && First(d) == p && d[|Frame(p)|..] == rest
  {
    hide Le32, FromLe32;
    var d := Frame(p) + rest;
    Le32RoundTrip(|p.key|);
    Le32RoundTrip(|p.cmd|);
    assert d[..4] == Le32(|p.key|) && d[4..8] == Le32(|p.cmd|);
  }

  /** Taking apart what was put together: the same packets in the same order. */
  lemma {:induction false} UnframeFrames(ps: seq<Packet>)
    requires AllFit(ps)
    ensures Unframe(Frames(ps)) == Some(ps)
  {
    hide Frame, KeyLen, CmdLen, First;
    if ps != [] {
      FirstOfFrame(ps[0], Frames(ps[1..]));
      UnframeFrames(ps[1..]);
      assert ps == [ps[0]] + ps[1..];
    }
  }

  lemma FrameOfFirst(data: seq<byte>)
    requires |data| >= PACKET_HEADER && KeyLen(data) + CmdLen(data) <= PACKET_MAX
    requires |data| >= PACKET_HEADER + KeyLen(data) + CmdLen(data)
    ensures data == Frame(First(data)) + data[PACKET_HEADER + KeyLen(data) + CmdLen(data)..]
  {
    hide Le32, FromLe32;
    Le32Back(data[..4]);
    Le32Back(data[4..8]);
    assert data == data[..4] + data[4..8] + data[8..];
  }

  lemma Le32Back(b: seq<byte>)
    requires |b| == 4
    ensures Le32(FromLe32(b)) == b
  {
    var n, m, l := FromLe32(b), b[1] as nat + 256 * b[2] as nat + 65536 * b[3] as nat, b[2] as nat + 256 * b[3] as nat;
    assert n == 256 * m + b[0] as nat && m == 256 * l + b[1] as nat;
    assert n / 256 == m && n % 256 == b[0] as nat;
    assert m / 256 == l && m % 256 == b[1] as nat;
    assert l / 256 == b[3] as nat && l % 256 == b[2] as nat;
    assert n / 65536 == l && n / 16777216 == b[3] as nat;
  }

  /** And nothing else can be taken apart: only what some packets put together. */
  lemma {:induction false} FramesUnframe(data: seq<byte>)
    requires Unframe(data).Some?
    ensures AllFit(Unframe(data).value) && Frames(Unframe(data).value) == data
    decreases |data|
  {
    hide Frame, KeyLen, CmdLen, First;
    if data != [] {
      var rest := data[PACKET_HEADER + KeyLen(data) + CmdLen(data)..];
      FramesUnframe(rest);
      FrameOfFirst(data);
      FirstFits(data);
      var ps := Unframe(data).value;
      assert ps[0] == First(data) && ps[1..] == Unframe(rest).value;
    }
  }

  lemma FirstFits(data: seq<byte>)
    requires |data| >= PACKET_HEADER && KeyLen(data) + CmdLen(data) <= PACKET_MAX
    requires |data| >= PACKET_HEADER + KeyLen(data) + CmdLen(data)
    ensures Fits(First(data))
  {
  }

  /** redis_client.cpp, lines 797-815: the inner loop of process_request_queue, on a message of whole packets. */
  method TakeApart(data: array<byte>, len: nat) returns (packets: seq<Packet>)
    requires len <= data.Length && len < UINT32 && Unframe(data[..len]).Some?
    ensures Unframe(data[..len]) == Some(packets)
  {
    hide Unframe, FromLe32;
    packets := [];
    ghost var all := data[..];
    var at := 0;
    assert all[0..len] == data[..len];
    while at < len
      invariant at <= len && Unframe(all[at..len]).Some?
      invariant Unframe(all[..len]).value == packets + Unframe(all[at..len]).value
    {
      NextPacket(all, at, len);
      var keyLen, cmdLen := FromLe32(data[at..at + 4]), FromLe32(data[at + 4..at + 8]);
      assert data[at..at + 4] == all[at..at + 4] && data[at + 4..at + 8] == all[at + 4..at + 8];
      var packetLen := Wrap32(keyLen + cmdLen + PACKET_HEADER);
      var p := Packet(data[at + 8..at + 8 + keyLen], data[at + 8 + keyLen..at + 8 + keyLen + cmdLen]);
      ConcatAssociates(packets, [p], Unframe(all[at + packetLen..len]).value);
      packets := packets + [p];
      at := at + packetLen;
    }
    UnframeNothing();
    assert all[at..len] == [] && packets + [] == packets;
  }

  /** One turn of that loop. */
  lemma NextPacket(all: seq<byte>, at: nat, len: nat)
    requires at < len <= |all| && Unframe(all[at..len]).Some?
    ensures at + 8 <= len
    ensures var k, c := FromLe32(all[at..at + 4]), FromLe32(all[at + 4..at + 8]);
      k + c <= PACKET_MAX && at + 8 + k + c <= len && Unframe(all[at + 8 + k + c..len]).Some? &&
      Unframe(all[at..len]).value ==
        [Packet(all[at + 8..at + 8 + k], all[at + 8 + k..at + 8 + k + c])] + Unframe(all[at + 8 + k + c..len]).value
  {
    hide Unframe, FromLe32;
    var left := all[at..len];
    UnframeNext(left);
    SliceOfSlice(all, at, len, 0, 4);
    SliceOfSlice(all, at, len, 4, 8);
    var k, c := FromLe32(left[..4]), FromLe32(left[4..8]);
    SliceOfSlice(all, at, len, 8, 8 + k);
    SliceOfSlice(all, at, len, 8 + k, 8 + k + c);
    SliceOfSlice(all, at, len, 8 + k + c, len - at);
  }

  lemma UnframeNothing()
    ensures Unframe([]) == Some([])
  {
  }

  lemma UnframeNext(left: seq<byte>)
    requires Unframe(left).Some? && left != []
    ensures |left| >= PACKET_HEADER && KeyLen(left) + CmdLen(left) <= PACKET_MAX
    ensures |left| >= PACKET_HEADER + KeyLen(left) + CmdLen(left)
    ensures Unframe(left[PACKET_HEADER + KeyLen(left) + CmdLen(left)..]).Some?
    ensures Unframe(left).value == [First(left)] + Unframe(left[PACKET_HEADER + KeyLen(left) + CmdLen(left)..]).value
  {
    hide KeyLen, CmdLen, First, FromLe32;
    var rest := Unframe(left[PACKET_HEADER + KeyLen(left) + CmdLen(left)..]);
    assert rest.Some? && Unframe(left) == Some([First(left)] + rest.value);
  }

  // ------------------------------------------------------------------------------------------------
  // The client
  // ------------------------------------------------------------------------------------------------

  /** The messages are the frames of the packets, one by one. */
  ghost predicate Carries(messages: seq<Message>, ps: seq<Packet>) {
    AllFit(ps) && |messages| == |ps| && forall i :: 0 <= i < |ps| ==> messages[i] == Frame(ps[i])
  }

  /** Each command with the node that its own key is looked up to. */
  ghost function Served<Node>(m: map<nat, Node>, ps: seq<Packet>): seq<(Node, seq<byte>)>
    requires Points(m.Keys) && m.Keys != {}
  {
    seq(|ps|, i requires 0 <= i < |ps| => (Lookup(m, Hash32(ps[i].key)), ps[i].cmd))
  }

  class Client<Node> {
    const q: Queue
    const nodes: HashNodes<Node>

    ghost predicate Valid()
      reads this, q, q.queue, nodes
    {
      q.Valid() && q.queue != null && nodes.Valid() && nodes.m.Keys != {}
    }

    constructor (q: Queue, nodes: HashNodes<Node>)
      requires q.Valid() && q.queue != null && nodes.Valid() && nodes.m.Keys != {}
      ensures Valid() && this.q == q && this.nodes == nodes
    {
      this.q, this.nodes := q, nodes;
    }

    /** redis_client.cpp, lines 260-319. `cmd` is what redisvFormatCommand makes of the format, if it can. Key and
        command together must fit the buffer of the call. */
    method AppendCmd(key: Option<seq<byte>>, cmd: Option<seq<byte>>) returns (result: int)
      requires Valid()
      requires key.Some? && cmd.Some? ==> Fits(Packet(key.value, cmd.value))
      modifies q, q.queue
      ensures Valid() && q.queue == old(q.queue)
      ensures key.None? ==> result == -100
      ensures key.Some? && cmd.None? ==> result == -200
      ensures key.Some? && cmd.Some? ==> result == 0 || result == -1
      ensures key.Some? && cmd.Some? ==>
        (result == 0 <==> ActualLen(|Frame(Packet(key.value, cmd.value))|) <= q.queue.Length - old(TotalLen(q.waiting)))
      ensures q.waiting ==
        if result == 0 then old(q.waiting) + [Frame(Packet(key.value, cmd.value))] else old(q.waiting)
    {
      hide Laid, QueueSize, Flatten, Points, ActualLen;
      if key.None? {
        return -100;
      }
      if cmd.None? {
        return -200;
      }
      var header := Le32(|key.value|) + Le32(|cmd.value|);
      var buf := key.value + cmd.value;
      FlattenTwo(header, buf);
      result := q.Enqueue([header, buf]);
    }

    /** redis_client.cpp, lines 781-868 with nobody appending meanwhile: everything waiting is handed, in order and
        once, to the node of its own key. `served` lists the commands with the node that was looked up for each. */
    method ProcessRequestQueue(buffer: array<byte>, ghost ps: seq<Packet>) returns (served: seq<(Node, seq<byte>)>)
      requires Valid() && buffer.Length == DEQUEUE_ROOM && buffer != q.queue
      requires Carries(q.waiting, ps)
      modifies q, buffer
      ensures Valid() && q.queue == old(q.queue) && q.waiting == []
      ensures served == Served(nodes.m, ps)
    {
      hide Laid, QueueSize, Points, ActualLen, Unframe, Frame, Hash32, Lookup, TotalLen;
      served := [];
      ghost var n := 0;
      while true
        invariant Valid() && q.queue == old(q.queue) && n <= |ps| && |served| == n && Carries(q.waiting, ps[n..])
        invariant forall i :: 0 <= i < n ==> served[i] == (Lookup(nodes.m, Hash32(ps[i].key)), ps[i].cmd)
        decreases |ps| - n
      {
        ghost var before := q.waiting;
        if before != [] {
          CarriesNext(before, ps, n);
        }
        var code, data, len := q.Dequeue(buffer, false);
        if code < 0 {
          break;
        }
        assert data[..len] == Frame(ps[n]);
        OnePacket(ps[n]);
        var packets := TakeApart(data, len);
        for i := 0 to |packets|
          modifies {}
          invariant |served| == n + i
          invariant forall j :: 0 <= j < n + i ==> served[j] == (Lookup(nodes.m, Hash32(ps[j].key)), ps[j].cmd)
        {
          var s := nodes.GetNode(packets[i].key);
          served := served + [(s, packets[i].cmd)];
        }
        n := n + 1;
      }
    }
  }

  lemma CarriesNext(messages: seq<Message>, ps: seq<Packet>, n: nat)
    requires n <= |ps| && messages != [] && Carries(messages, ps[n..])
    ensures n < |ps| && Fits(ps[n]) && messages[0] == Frame(ps[n]) && Carries(messages[1..], ps[n + 1..])
  {
    hide Frame;
    assert ps[n..][0] == ps[n] && ps[n] in ps[n..];
    assert ps[n..][1..] == ps[n + 1..];
    forall i | 0 <= i < |ps[n + 1..]| ensures ps[n + 1..][i] in ps[n..] && messages[1..][i] == Frame(ps[n + 1..][i]) {
      assert ps[n..][i + 1] == ps[n + 1..][i];
    }
  }

  lemma FlattenTwo(a: seq<byte>, b: seq<byte>)
    ensures Flatten([a, b]) == a + b
  {
    assert [a, b][1..] == [b] && [b][1..] == [];
    assert Flatten([b]) == b + [];
  }

  lemma OnePacket(p: Packet)
    requires Fits(p)
    ensures Unframe(Frame(p)) == Some([p])
  {
    UnframeFrames([p]);
    assert [p][1..] == [] && Frame(p) + [] == Frame(p);
  }

  // ------------------------------------------------------------------------------------------------
  // Many threads at both ends of the queue
  // ------------------------------------------------------------------------------------------------

  /** What append_cmd hands to enqueue: one packet. */
  predicate Framed(msg: Message) {
    Unframe(msg).Some? && |Unframe(msg).value| == 1
  }

  lemma FramedIsFrame(msg: Message)
    requires Framed(msg)
    ensures var p := Unframe(msg).value[0];
      Fits(p) && msg == Frame(p) && |msg| <= PACKET_HEADER + PACKET_MAX
  {
    hide Unframe, Frame;
    FramesUnframe(msg);
    var ps := Unframe(msg).value;
    assert ps == [ps[0]] && ps[1..] == [] && ps[0] in ps;
    assert Frame(ps[0]) + [] == Frame(ps[0]);
  }

  /** The commands that the dispatcher finds in what dequeue handed back, each with the node it looks up. */
  ghost function Dispatched<Node>(m: map<nat, Node>, outs: seq<RingProtocol.Outcome>): seq<(Node, seq<byte>)>
    requires Points(m.Keys) && m.Keys != {}
  {
    if outs == [] then []
    else Dispatched(m, outs[..|outs| - 1]) + DispatchedOne(m, outs[|outs| - 1])
  }

  ghost function DispatchedOne<Node>(m: map<nat, Node>, out: RingProtocol.Outcome): seq<(Node, seq<byte>)>
    requires Points(m.Keys) && m.Keys != {}
  {
    if out.Got? && Unframe(out.data).Some? then Served(m, Unframe(out.data).value) else []
  }

  lemma {:induction false} DispatchedIsServed<Node>(m: map<nat, Node>, outs: seq<RingProtocol.Outcome>, ps: seq<Packet>)
    requires Points(m.Keys) && m.Keys != {} && |outs| <= |ps|
    requires forall k | 0 <= k < |outs| :: outs[k].Got? && Unframe(outs[k].data) == Some([ps[k]])
    ensures Dispatched(m, outs) == Served(m, ps[..|outs|])
  {
    hide Unframe, Hash32, Lookup;
    if outs != [] {
      DispatchedIsServed(m, outs[..|outs| - 1], ps);
      assert ps[..|outs|] == ps[..|outs| - 1] + [ps[|outs| - 1]];
    }
  }

  /** The packets that went in. */
  lemma PacketsOf(messages: seq<Message>) returns (ps: seq<Packet>)
    requires forall k | 0 <= k < |messages| :: Framed(messages[k])
    ensures Carries(messages, ps)
  {
    hide Unframe, Frame;
    ps := seq(|messages|, k requires 0 <= k < |messages| => Unframe(messages[k]).value[0]);
    forall k | 0 <= k < |messages| ensures Fits(ps[k]) && messages[k] == Frame(ps[k]) {
      FramedIsFrame(messages[k]);
    }
  }

  lemma PacketsHaveRoom()
    ensures Roomy(Framed, DEQUEUE_ROOM)
  {
    hide Framed, Frame;
    forall msg: Message | Framed(msg) ensures |msg| <= DEQUEUE_ROOM {
      FramedIsFrame(msg);
    }
  }

  /** With any number of threads at both ends of the queue, in any interleaving, where append_cmd sends packets and
      process_request_queue offers its buffer. Let `ps` be the packets that were accepted, in order. What dequeue has
      handed back so far is taken apart into exactly the first ones, none lost and none twice, and each command goes
      to the node of its own key. These are all of them exactly when m_dequeue_pos has met m_enqueue_pos, as it has
      once everything published is claimed and no thread is at work. */
  lemma EveryCommandOnce<Node>(s: RingProtocol.Sys, moves: seq<Move>, m: map<nat, Node>) returns (ps: seq<Packet>)
    requires RingProtocol.Init(s) && Legal(s, moves) && AllAsked(moves, Framed, DEQUEUE_ROOM)
    requires Points(m.Keys) && m.Keys != {}
    ensures Carries(Enqs(Trace(s, moves)), ps)
    ensures var outs := Final(s, moves).sh.outs;
      |outs| <= |ps| && Dispatched(m, outs) == Served(m, ps[..|outs|]) &&
      forall k | 0 <= k < |outs| :: outs[k].Got? && Unframe(outs[k].data) == Some([ps[k]])
    ensures var f := Final(s, moves);
      (|f.sh.outs| == |ps| <==> f.sh.dequeue == f.sh.enqueue) &&
      (Work(f.threads) == 0 && f.sh.preDequeue == f.sh.enqueue ==> Dispatched(m, f.sh.outs) == Served(m, ps))
  {
    hide Unframe, Frame, Framed, Served, Dispatched, RingProtocol.Init, Legal, AllAsked, Roomy;
    PacketsHaveRoom();
    NothingLost(s, moves, Framed, DEQUEUE_ROOM);
    QueueIsFifo(s, moves);
    AllDelivered(s, moves);
    ps := PacketsOf(Enqs(Trace(s, moves)));
    var outs := Final(s, moves).sh.outs;
    forall k | 0 <= k < |outs| ensures outs[k].Got? && Unframe(outs[k].data) == Some([ps[k]]) {
      assert RingProtocol.Delivers(outs[k], Enqs(Trace(s, moves))[k]);
      assert ps[k] in ps;
      OnePacket(ps[k]);
    }
    DispatchedIsServed(m, outs, ps);
    assert ps[..|ps|] == ps;
  }

  /** And from every point of such a run at which some thread is free to dispatch, the run can be continued so that
      every command accepted by then, and every one whose record was being filled, has gone to its node. */
  lemma EveryCommandArrives<Node>(s: RingProtocol.Sys, moves: seq<Move>, m: map<nat, Node>, t: nat)
    returns (rest: seq<Move>, ps: seq<Packet>)
    requires RingProtocol.Init(s) && Legal(s, moves) && AllAsked(moves, Framed, DEQUEUE_ROOM)
    requires Points(m.Keys) && m.Keys != {}
    requires t < |Final(s, moves).threads| && Final(s, moves).threads[t].Idle?
    ensures OnlyReceives(rest, DEQUEUE_ROOM) && Legal(s, moves + rest)
    ensures Enqs(Trace(s, moves)) <= Enqs(Trace(s, moves + rest)) && Carries(Enqs(Trace(s, moves + rest)), ps)
    ensures var f := Final(s, moves + rest).sh;
      f.enqueue == Final(s, moves).sh.preEnqueue && Dispatched(m, f.outs) == Served(m, ps)
  {
    hide Unframe, Frame, Framed, Served, Dispatched, RingProtocol.Init, RingProtocol.Inv, Legal, Final, Trace, Enqs;
    PublishedIsEnqs(s, moves);
    rest := CanDeliver(Final(s, moves), t, DEQUEUE_ROOM);
    RunConcat(s, moves, rest);
    EventsConcat(Trace(s, moves), Trace(Final(s, moves), rest));
    ps := EveryCommandOnce(s, moves + rest, m);
    assert ps[..|ps|] == ps;
  }
}
