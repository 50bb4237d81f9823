/** Whole runs of the concurrent queue: it is a FIFO queue, its answers are true, and it cannot get
    stuck. */
module RingRuns {
  import opened Bytes
  import opened RingLayout
  import opened RingProtocol

  // ------------------------------------------------------------------------------------------------
  // The reference: a sequential queue, replaying a history of completed operations
  // ------------------------------------------------------------------------------------------------

  datatype Event = Enq(msg: Message) | Deq(msg: Message) | SawEmpty | SawFull

  /** The queue after the events, or None if a queue could not have answered so. */
  function Replay(q: seq<Message>, events: seq<Event>): Option<seq<Message>>
    decreases |events|
  {
    if events == [] then Some(q)
    else
      match events[0]
      case Enq(msg) => Replay(q + [msg], events[1..])
      case Deq(msg) => if q != [] && q[0] == msg then Replay(q[1..], events[1..]) else None
      case SawEmpty => if q == [] then Replay(q, events[1..]) else None
      case SawFull => Replay(q, events[1..])
  }

  function Enqs(events: seq<Event>): seq<Message> {
    if events == [] then []
    else (if events[0].Enq? then [events[0].msg] else []) + Enqs(events[1..])
  }

  function Deqs(events: seq<Event>): seq<Message> {
    if events == [] then []
    else (if events[0].Deq? then [events[0].msg] else []) + Deqs(events[1..])
  }

  lemma {:induction false} ReplayConcat(q: seq<Message>, a: seq<Event>, b: seq<Event>)
    requires Replay(q, a).Some?
    ensures Replay(q, a + b) == Replay(Replay(q, a).value, b)
    decreases |a|
  {
    if a == [] {
      assert a + b == b;
    } else {
      assert (a + b)[1..] == a[1..] + b;
      match a[0]
      case Enq(msg) => ReplayConcat(q + [msg], a[1..], b);
      case Deq(msg) => ReplayConcat(q[1..], a[1..], b);
      case _ => ReplayConcat(q, a[1..], b);
    }
  }

  lemma FirstEvent(q: seq<Message>, events: seq<Event>)
    requires events != [] && Replay(q, events).Some?
    ensures Enqs(events) == if events[0].Enq? then [events[0].msg] + Enqs(events[1..]) else Enqs(events[1..])
    ensures Deqs(events) == if events[0].Deq? then [events[0].msg] + Deqs(events[1..]) else Deqs(events[1..])
    ensures events[0].Enq? ==> Replay(q, events) == Replay(q + [events[0].msg], events[1..])
    ensures events[0].Deq? ==> q != [] && q[0] == events[0].msg && Replay(q, events) == Replay(q[1..], events[1..])
    ensures !events[0].Enq? && !events[0].Deq? ==> Replay(q, events) == Replay(q, events[1..])
  {
  }

  /** What went into a sequential queue is what came out, in order, and what is still there. */
  lemma {:induction false} ReplayConserves(q: seq<Message>, events: seq<Event>)
    requires Replay(q, events).Some?
    ensures q + Enqs(events) == Deqs(events) + Replay(q, events).value
    decreases |events|
  {
    if events != [] {
      hide Replay, Enqs, Deqs;
      FirstEvent(q, events);
      match events[0]
      case Enq(msg) =>
        ReplayConserves(q + [msg], events[1..]);
        ConcatAssociates(q, [msg], Enqs(events[1..]));
      case Deq(msg) =>
        ReplayConserves(q[1..], events[1..]);
        ConcatAssociates([msg], q[1..], Enqs(events[1..]));
        ConcatAssociates([msg], Deqs(events[1..]), Replay(q, events).value);
        assert q == [msg] + q[1..];
      case _ =>
        ReplayConserves(q, events[1..]);
    }
  }

  // ------------------------------------------------------------------------------------------------
  // Runs
  // ------------------------------------------------------------------------------------------------

  datatype Move = Move(t: nat, a: Action)

  ghost predicate Legal(s: Sys, moves: seq<Move>)
    decreases |moves|
  {
    moves == [] || (Enabled(s, moves[0].t, moves[0].a) && Legal(Do(s, moves[0].t, moves[0].a), moves[1..]))
  }

  ghost function Final(s: Sys, moves: seq<Move>): Sys
    requires Legal(s, moves)
    decreases |moves|
  {
    if moves == [] then s else Final(Do(s, moves[0].t, moves[0].a), moves[1..])
  }

  /** The operation that takes effect with this step, if any: enqueue with the publishing swap, dequeue
      with the claiming swap, the two refusals with the read they rest on. */
  function EventOf(s: Sys, t: nat, a: Action): seq<Event>
    requires Enabled(s, t, a)
  {
    var pc := s.threads[t];
    match a
    case ReadDequeue => if LooksFull(|s.sh.mem|, pc.msg, pc.pos, s.sh.dequeue) then [SawFull] else []
    case Publish => if s.sh.enqueue == pc.pos then [Enq(pc.msg)] else []
    case ReadEnqueue => if pc.pos == s.sh.enqueue then [SawEmpty] else []
    case Claim(_) =>
      if s.sh.preDequeue == pc.pos && |s.sh.claims| < |s.sh.log| then [Deq(s.sh.log[|s.sh.claims|].msg)] else []
    case _ => []
  }

  ghost function Trace(s: Sys, moves: seq<Move>): seq<Event>
    requires Legal(s, moves)
    decreases |moves|
  {
    if moves == [] then []
    else EventOf(s, moves[0].t, moves[0].a) + Trace(Do(s, moves[0].t, moves[0].a), moves[1..])
  }

  function Messages(log: seq<Reservation>): (ms: seq<Message>)
    ensures |ms| == |log| && forall k :: 0 <= k < |log| ==> ms[k] == log[k].msg
  {
    seq(|log|, k requires 0 <= k < |log| => log[k].msg)
  }

  ghost predicate Ordered(sh: Shared) {
    |sh.claims| <= sh.published <= |sh.log|
  }

  function Claimed(sh: Shared): seq<Message>
    requires Ordered(sh)
  {
    Messages(sh.log)[..|sh.claims|]
  }

  function Published(sh: Shared): seq<Message>
    requires Ordered(sh)
  {
    Messages(sh.log)[..sh.published]
  }

  /** The abstract queue: published and not yet claimed. */
  function Waiting(sh: Shared): seq<Message>
    requires Ordered(sh)
  {
    Messages(sh.log)[|sh.claims|..sh.published]
  }

  lemma InvOrdered(s: Sys)
    requires Inv(s)
    ensures Ordered(s.sh)
  {
  }

  /** The swap on m_enqueue_pos publishes the next record of the log, and only that one. */
  lemma PublishNext(s: Sys, t: nat)
    requires Inv(s) && Enabled(s, t, Publish) && s.sh.enqueue == s.threads[t].pos
    ensures s.sh.published < |s.sh.log| && s.threads[t].msg == s.sh.log[s.sh.published].msg
  {
    hide PartlyWritten, SharedOk, ThreadsOk, ProducersOk, ConsumersOk;
    ThreadOf(s, t);
    PublishShared(s.sh, t, s.threads[t]);
  }

  /** A claiming swap that succeeds takes a record that is published. */
  lemma ClaimNext(s: Sys, t: nat, noMemory: bool)
    requires Inv(s) && Enabled(s, t, Claim(noMemory)) && s.sh.preDequeue == s.threads[t].pos
    ensures |s.sh.claims| < s.sh.published <= |s.sh.log|
  {
    hide SharedOk, ThreadsOk, ProducersOk, ConsumersOk, HeaderSeen;
    ThreadOf(s, t);
  }

  lemma MessagesExtend(log: seq<Reservation>, log': seq<Reservation>)
    requires log <= log'
    ensures forall i, j | 0 <= i <= j <= |log| :: Messages(log')[i..j] == Messages(log)[i..j]
  {
  }

  /** The history of the reference queue that takes it from one state of the real one to the next. */
  ghost predicate Refines(sh: Shared, sh': Shared, events: seq<Event>)
    requires Ordered(sh) && Ordered(sh')
  {
    Replay(Waiting(sh), events) == Some(Waiting(sh')) &&
    Claimed(sh') == Claimed(sh) + Deqs(events) && Published(sh') == Published(sh) + Enqs(events)
  }

  lemma QuietRefines(sh: Shared, sh': Shared, events: seq<Event>)
    requires Ordered(sh) && Ordered(sh')
    requires sh.log <= sh'.log && sh'.claims == sh.claims && sh'.published == sh.published
    requires events == [] || events == [SawFull] || (events == [SawEmpty] && Waiting(sh) == [])
    ensures Refines(sh, sh', events)
  {
    MessagesExtend(sh.log, sh'.log);
    if events != [] {
      assert events[1..] == [];
    }
  }

  lemma PublishRefines(sh: Shared, sh': Shared, msg: Message)
    requires Ordered(sh) && Ordered(sh') && sh.published < |sh.log| && msg == sh.log[sh.published].msg
    requires sh'.log == sh.log && sh'.claims == sh.claims && sh'.published == sh.published + 1
    ensures Refines(sh, sh', [Enq(msg)])
  {
    PublishAppends(sh);
    assert [Enq(msg)][1..] == [];
  }

  lemma ClaimRefines(sh: Shared, sh': Shared, msg: Message)
    requires Ordered(sh) && Ordered(sh') && |sh.claims| < sh.published && msg == sh.log[|sh.claims|].msg
    requires sh'.log == sh.log && |sh'.claims| == |sh.claims| + 1 && sh'.published == sh.published
    ensures Refines(sh, sh', [Deq(msg)])
  {
    ClaimTakesHead(sh);
    assert [Deq(msg)][1..] == [];
  }

  /** One step of the real queue is at most one operation of the sequential one. */
  lemma StepRefines(s: Sys, t: nat, a: Action)
    requires Inv(s) && Enabled(s, t, a)
    ensures Inv(Do(s, t, a)) && Ordered(s.sh) && Ordered(Do(s, t, a).sh)
    ensures Refines(s.sh, Do(s, t, a).sh, EventOf(s, t, a))
  {
    hide Inv, LooksFull, Slot, Record, HeaderLen, Below, Refines;
    StepInv(s, t, a);
    InvOrdered(s);
    InvOrdered(Do(s, t, a));
    var sh, sh' := s.sh, Do(s, t, a).sh;
    if a.Publish? && sh.enqueue == s.threads[t].pos {
      PublishNext(s, t);
      PublishRefines(sh, sh', s.threads[t].msg);
    } else if a.Claim? && sh.preDequeue == s.threads[t].pos {
      ClaimNext(s, t, a.noMemory);
      ClaimRefines(sh, sh', sh.log[|sh.claims|].msg);
    } else {
      if a.ReadEnqueue? {
        EmptyIsTrue(s, t);
      }
      QuietRefines(sh, sh', EventOf(s, t, a));
    }
  }

  lemma ClaimTakesHead(sh: Shared)
    requires |sh.claims| < sh.published <= |sh.log|
    ensures Waiting(sh)[0] == sh.log[|sh.claims|].msg
    ensures Waiting(sh)[1..] == Messages(sh.log)[|sh.claims| + 1..sh.published]
    ensures Messages(sh.log)[..|sh.claims| + 1] == Messages(sh.log)[..|sh.claims|] + [sh.log[|sh.claims|].msg]
  {
  }

  lemma PublishAppends(sh: Shared)
    requires |sh.claims| <= sh.published < |sh.log|
    ensures Messages(sh.log)[|sh.claims|..sh.published + 1] == Waiting(sh) + [sh.log[sh.published].msg]
    ensures Messages(sh.log)[..sh.published + 1] == Published(sh) + [sh.log[sh.published].msg]
  {
  }

  lemma FirstUnclaimedEnds(sh: Shared)
    requires CursorsOk(sh) && LogOk(sh) && |sh.claims| < sh.published
    ensures sh.preDequeue < End(sh.log[|sh.claims|]) <= sh.enqueue
  {
    hide QueueSize;
    if sh.published < |sh.log| {
      assert End(sh.log[|sh.claims|]) <= sh.log[sh.published].pos;
    }
  }

  /** "Empty" is true at the moment m_enqueue_pos is read, however old the position it is compared
      with; and a current position is told "empty" whenever the queue is. */
  lemma EmptyIsTrue(s: Sys, t: nat)
    requires Inv(s) && Enabled(s, t, ReadEnqueue)
    ensures Ordered(s.sh)
    ensures s.threads[t].pos == s.sh.enqueue ==> Waiting(s.sh) == []
    ensures s.threads[t].pos == s.sh.preDequeue && Waiting(s.sh) == [] ==> Do(s, t, ReadEnqueue).threads[t].Idle?
  {
    hide ThreadsOk, ProducersOk, ConsumersOk, DataOk, OutsOk, QueueSize;
    ThreadOf(s, t);
    var sh := s.sh;
    if |sh.claims| < sh.published {
      FirstUnclaimedEnds(sh);
    }
  }

  /** The bytes that no reservation holds. */
  function Free(sh: Shared): int {
    |sh.mem| - (sh.preEnqueue - sh.dequeue)
  }

  /** "Full" is true at the moment m_dequeue_pos is read, even when the position it is compared with is
      so old that the unsigned difference wraps; and a current position is never let through when there
      is no room. */
  lemma FullIsTrue(s: Sys, t: nat)
    requires Inv(s) && Enabled(s, t, ReadDequeue)
    ensures Do(s, t, ReadDequeue).threads[t].Idle? ==> ActualLen(|s.threads[t].msg|) > Free(s.sh)
    ensures s.threads[t].pos == s.sh.preEnqueue && ActualLen(|s.threads[t].msg|) > Free(s.sh) ==>
      Do(s, t, ReadDequeue).threads[t].Idle?
  {
    hide ThreadsOk, ProducersOk, ConsumersOk, DataOk, OutsOk, LogOk, QueueSize, FreeSpace, ActualLen;
    ThreadOf(s, t);
    FreeSpaceExact(s.sh, s.threads[t].pos);
  }

  lemma NoMoves(s: Sys)
    ensures Enqs([]) == [] && Deqs([]) == [] && forall q :: Replay(q, []) == Some(q)
  {
  }

  /** Every run is a run of the sequential queue. */
  lemma {:induction false} RunRefines(s: Sys, moves: seq<Move>)
    requires Inv(s) && Legal(s, moves)
    ensures Inv(Final(s, moves)) && Ordered(s.sh) && Ordered(Final(s, moves).sh)
    ensures Replay(Waiting(s.sh), Trace(s, moves)) == Some(Waiting(Final(s, moves).sh))
    ensures Claimed(Final(s, moves).sh) == Claimed(s.sh) + Deqs(Trace(s, moves))
    ensures Published(Final(s, moves).sh) == Published(s.sh) + Enqs(Trace(s, moves))
    decreases |moves|
  {
    hide Inv, Do, Enabled, EventOf, Waiting, Claimed, Published, Replay, Enqs, Deqs;
    NoMoves(s);
    InvOrdered(s);
    if moves != [] {
      var t, a := moves[0].t, moves[0].a;
      var first := EventOf(s, t, a);
      StepRefines(s, t, a);
      RunRefines(Do(s, t, a), moves[1..]);
      ReplayConcat(Waiting(s.sh), first, Trace(Do(s, t, a), moves[1..]));
      EventsConcat(first, Trace(Do(s, t, a), moves[1..]));
    }
  }

  lemma {:induction false} EventsConcat(a: seq<Event>, b: seq<Event>)
    ensures Enqs(a + b) == Enqs(a) + Enqs(b)
    ensures Deqs(a + b) == Deqs(a) + Deqs(b)
  {
    if a == [] {
      assert a + b == b;
    } else {
      assert (a + b)[1..] == a[1..] + b;
      EventsConcat(a[1..], b);
      ConcatAssociates(if a[0].Enq? then [a[0].msg] else [], Enqs(a[1..]), Enqs(b));
      ConcatAssociates(if a[0].Deq? then [a[0].msg] else [], Deqs(a[1..]), Deqs(b));
    }
  }

  /** The whole promise of queue_t. From a fresh queue, in any interleaving: the history of operations
      is one that a sequential FIFO queue could have had; and the k-th return of dequeue hands back
      exactly the bytes of the k-th message that enqueue accepted (or, out of memory, its length). */
  lemma QueueIsFifo(s: Sys, moves: seq<Move>)
    requires Init(s) && Legal(s, moves)
    ensures Replay([], Trace(s, moves)).Some?
    ensures Deqs(Trace(s, moves)) <= Enqs(Trace(s, moves))
    ensures var outs := Final(s, moves).sh.outs;
      |outs| <= |Deqs(Trace(s, moves))| &&
      forall k :: 0 <= k < |outs| ==> Delivers(outs[k], Enqs(Trace(s, moves))[k])
  {
    hide Slot, Record, DataOk, ThreadsOk, LogOk, ProducersOk, ConsumersOk, QueueSize;
    InitInv(s);
    RunRefines(s, moves);
    var f := Final(s, moves).sh;
    assert Waiting(s.sh) == [];
    ReplayConserves([], Trace(s, moves));
    assert Published(f) == Enqs(Trace(s, moves));
    assert Claimed(f) == Deqs(Trace(s, moves));
    forall k | 0 <= k < |f.outs| ensures Delivers(f.outs[k], Enqs(Trace(s, moves))[k]) {
      assert Published(f)[k] == f.log[k].msg;
    }
  }

  /** While a record is published and not released, no step of any thread writes any of its bytes. */
  lemma PublishedBytesStable(s: Sys, t: nat, a: Action, x: nat)
    requires Inv(s) && Enabled(s, t, a) && s.sh.dequeue <= x < s.sh.enqueue
    ensures |Do(s, t, a).sh.mem| == |s.sh.mem|
    ensures Do(s, t, a).sh.mem[Slot(x, |s.sh.mem|)] == s.sh.mem[Slot(x, |s.sh.mem|)]
  {
    hide Slot, Record, SharedOk, ThreadsOk, ProducersOk, ConsumersOk, LooksFull, HeaderLen, Below;
    if a.WriteByte? {
      ThreadOf(s, t);
      UnpublishedElsewhere(s.sh, t, s.threads[t], a.o, x);
    }
  }

  lemma UnpublishedElsewhere(sh: Shared, t: nat, pc: PC, o: nat, x: nat)
    requires SharedOk(sh) && pc.Filling? && FillingOk(sh, t, pc) && o < HEADER + |pc.msg|
    requires sh.dequeue <= x < sh.enqueue
    ensures |sh.mem| > 0 && Slot(pc.pos + o, |sh.mem|) != Slot(x, |sh.mem|)
  {
    hide Slot, DataOk, OutsOk, LogOk, PartlyWritten;
    PosGrows(sh, sh.published, pc.index);
    RecordEnds(sh, pc.index);
    LiveAboveDequeue(sh, pc.index);
    SlotsDiffer(pc.pos + o, x, |sh.mem|);
  }

  // ------------------------------------------------------------------------------------------------
  // No deadlock
  // ------------------------------------------------------------------------------------------------

  /** Steps that bring an operation in flight closer to its end: copying, and commits that are not spins. */
  ghost predicate Commits(s: Sys, m: Move) {
    Enabled(s, m.t, m.a) &&
    (m.a.WriteByte? || m.a.CopyByte? ||
     (m.a.Publish? && s.sh.enqueue == s.threads[m.t].pos) || (m.a.Release? && s.sh.dequeue == s.threads[m.t].pos))
  }

  function WorkOf(pc: PC): nat {
    if pc.Filling? || pc.Copying? then |pc.todo| + 1 else if pc.Dropping? then 1 else 0
  }

  /** Bytes still to copy plus commits still to make. */
  function Work(threads: seq<PC>): nat {
    if threads == [] then 0 else WorkOf(threads[0]) + Work(threads[1..])
  }

  lemma {:induction false} WorkUpdate(threads: seq<PC>, t: nat, pc: PC)
    requires t < |threads|
    ensures Work(threads[t := pc]) == Work(threads) - WorkOf(threads[t]) + WorkOf(pc)
  {
    if t == 0 {
      assert threads[t := pc][1..] == threads[1..];
    } else {
      assert threads[t := pc][1..] == threads[1..][t - 1 := pc];
      WorkUpdate(threads[1..], t - 1, pc);
    }
  }

  lemma {:induction false} WorkPositive(threads: seq<PC>)
    ensures Work(threads) == 0 <==> forall t | 0 <= t < |threads| :: !Owns(threads[t])
  {
    if threads != [] {
      WorkPositive(threads[1..]);
      if forall t | 0 <= t < |threads| :: !Owns(threads[t]) {
        forall t | 0 <= t < |threads[1..]| ensures !Owns(threads[1..][t]) { assert !Owns(threads[t + 1]); }
      } else if !Owns(threads[0]) {
        var t :| 0 <= t < |threads| && Owns(threads[t]);
        assert Owns(threads[1..][t - 1]);
      }
    }
  }

  /** Each such step does one unit of the work, whoever makes it; no other step adds any, but for the
      two swaps that begin new work. */
  lemma WorkFalls(s: Sys, m: Move)
    requires Inv(s) && Enabled(s, m.t, m.a)
    ensures Commits(s, m) ==> Work(Do(s, m.t, m.a).threads) == Work(s.threads) - 1
    ensures !Commits(s, m) && !m.a.Reserve? && !m.a.Claim? ==> Work(Do(s, m.t, m.a).threads) == Work(s.threads)
  {
    hide Inv, EnabledAt, WorkOf, NextPC, NextShared, Below;
    WorkUpdate(s.threads, m.t, NextPC(s.sh, s.threads[m.t], m.a));
    StepWork(s.sh, s.threads[m.t], m.a);
  }

  /** What a step does to the work of the thread that makes it. */
  lemma StepWork(sh: Shared, pc: PC, a: Action)
    requires |sh.mem| > 0 && EnabledAt(sh, pc, a)
    ensures a.WriteByte? || a.CopyByte? ==> WorkOf(NextPC(sh, pc, a)) == WorkOf(pc) - 1
    ensures a.Publish? ==> WorkOf(NextPC(sh, pc, a)) == WorkOf(pc) - if sh.enqueue == pc.pos then 1 else 0
    ensures a.Release? ==> WorkOf(NextPC(sh, pc, a)) == WorkOf(pc) - if sh.dequeue == pc.pos then 1 else 0
    ensures !a.WriteByte? && !a.CopyByte? && !a.Publish? && !a.Release? && !a.Reserve? && !a.Claim? ==>
      WorkOf(NextPC(sh, pc, a)) == WorkOf(pc)
  {
    hide Below, LooksFull, Slot, Record, HeaderLen;
  }

  /** The thread that made the first reservation not yet published is still filling it. */
  lemma HeadIsFilled(s: Sys) returns (t: nat)
    requires Inv(s) && s.sh.enqueue < s.sh.preEnqueue
    ensures s.sh.published < |s.sh.log| && t == s.sh.log[s.sh.published].maker
    ensures t < |s.threads| && s.threads[t].Filling? && FillingOk(s.sh, t, s.threads[t])
    ensures s.threads[t].pos == s.sh.enqueue && |s.sh.mem| > 0
  {
    hide DataOk, OutsOk, PartlyWritten, QueueSize, Slot, ConsumersOk, LogOk, ActualLen;
    t := s.sh.log[s.sh.published].maker;
    assert MadeBy(s.threads, t, s.sh.published);
    ThreadOf(s, t);
  }

  lemma FillsValidMessage(sh: Shared, t: nat, pc: PC)
    requires pc.Filling? && FillingOk(sh, t, pc)
    ensures ValidMessage(pc.msg)
  {
  }

  lemma HeadFillerUnique(s: Sys, u: nat)
    requires Inv(s) && u < |s.threads| && s.threads[u].Filling? && s.threads[u].pos == s.sh.enqueue
    ensures s.threads[u].index == s.sh.published < |s.sh.log| && s.sh.log[s.sh.published].maker == u
  {
    hide DataOk, OutsOk, PartlyWritten, QueueSize, Slot, ConsumersOk, ProducersOk, LogOk, ActualLen;
    ThreadOf(s, u);
    OrderedFrom(s.sh, s.sh.published, s.threads[u].index);
  }

  /** Exactly one thread fills the region that starts at m_enqueue_pos, and it can move. */
  lemma ProducerAtHead(s: Sys) returns (m: Move)
    requires Inv(s) && s.sh.enqueue < s.sh.preEnqueue
    ensures Commits(s, m) && s.threads[m.t].Filling? && s.threads[m.t].pos == s.sh.enqueue
    ensures forall u | 0 <= u < |s.threads| && s.threads[u].Filling? && s.threads[u].pos == s.sh.enqueue :: u == m.t
  {
    hide Inv, PartlyWritten, Slot;
    var t := HeadIsFilled(s);
    var pc := s.threads[t];
    FillsValidMessage(s.sh, t, pc);
    if pc.todo == {} {
      m := Move(t, Publish);
    } else {
      var o :| o in pc.todo;
      assert o in Below(HEADER + |pc.msg|);
      m := Move(t, WriteByte(o));
    }
    forall u | 0 <= u < |s.threads| && s.threads[u].Filling? && s.threads[u].pos == s.sh.enqueue ensures u == t {
      HeadFillerUnique(s, u);
    }
  }

  /** The thread that made the first claim not yet released still holds it. */
  lemma HeadIsTaken(s: Sys) returns (t: nat)
    requires Inv(s) && s.sh.dequeue < s.sh.preDequeue
    ensures |s.sh.outs| < |s.sh.claims| && t == s.sh.claims[|s.sh.outs|] && t < |s.threads| && |s.sh.mem| > 0
    ensures s.threads[t].Copying? || s.threads[t].Dropping?
    ensures s.threads[t].pos == s.sh.dequeue && ThreadOk(s.sh, t, s.threads[t])
  {
    hide DataOk, OutsOk, PartlyWritten, QueueSize, Slot, ProducersOk, LogOk, ActualLen;
    t := s.sh.claims[|s.sh.outs|];
    assert TakenBy(s.threads, t, |s.sh.outs|);
    ThreadOf(s, t);
  }

  lemma HeadTakerUnique(s: Sys, u: nat)
    requires Inv(s) && u < |s.threads| && (s.threads[u].Copying? || s.threads[u].Dropping?)
    requires s.threads[u].pos == s.sh.dequeue
    ensures s.threads[u].index == |s.sh.outs| < |s.sh.claims| && s.sh.claims[|s.sh.outs|] == u
  {
    hide DataOk, OutsOk, PartlyWritten, QueueSize, Slot, ConsumersOk, ProducersOk, LogOk, ActualLen, CopiedOk;
    ThreadOf(s, u);
    OrderedFrom(s.sh, |s.sh.outs|, s.threads[u].index);
  }

  lemma CopiedAllIfNoneLeft(sh: Shared, t: nat, pc: PC)
    requires pc.Copying? && ThreadOk(sh, t, pc)
    ensures pc.todo == {} ==> Below(pc.len) <= pc.out.Keys
  {
    hide Slot, Record;
  }

  /** Likewise exactly one thread holds the claim that starts at m_dequeue_pos. */
  lemma ConsumerAtHead(s: Sys) returns (m: Move)
    requires Inv(s) && s.sh.dequeue < s.sh.preDequeue
    ensures Commits(s, m) && (s.threads[m.t].Copying? || s.threads[m.t].Dropping?) && s.threads[m.t].pos == s.sh.dequeue
    ensures forall u | 0 <= u < |s.threads| && (s.threads[u].Copying? || s.threads[u].Dropping?)
      && s.threads[u].pos == s.sh.dequeue :: u == m.t
  {
    hide Inv, Slot, ThreadOk;
    var t := HeadIsTaken(s);
    var pc := s.threads[t];
    if pc.Copying? {
      CopiedAllIfNoneLeft(s.sh, t, pc);
    }
    if pc.Dropping? || pc.todo == {} {
      m := Move(t, Release);
    } else {
      var o :| o in pc.todo;
      m := Move(t, CopyByte(o));
    }
    forall u | 0 <= u < |s.threads| && (s.threads[u].Copying? || s.threads[u].Dropping?)
      && s.threads[u].pos == s.sh.dequeue
      ensures u == t
    {
      HeadTakerUnique(s, u);
    }
  }

  /** As long as any reservation or claim is outstanding, some thread can do real work; once none is,
      the cursors have met. */
  lemma NeverStuck(s: Sys)
    requires Inv(s)
    ensures Work(s.threads) > 0 <==> exists m :: Commits(s, m)
    ensures Work(s.threads) == 0 ==> s.sh.enqueue == s.sh.preEnqueue && s.sh.dequeue == s.sh.preDequeue
  {
    hide DataOk, OutsOk, PartlyWritten, QueueSize, Slot, Work, LogOk;
    WorkPositive(s.threads);
    if s.sh.enqueue < s.sh.preEnqueue {
      var m := ProducerAtHead(s);
      WorkFalls(s, m);
    } else if s.sh.dequeue < s.sh.preDequeue {
      var m := ConsumerAtHead(s);
      WorkFalls(s, m);
    } else {
      OwnersOutstanding(s);
      forall m: Move ensures !Commits(s, m) {
        OwnersCommit(s, m);
      }
    }
  }

  lemma OwnersCommit(s: Sys, m: Move)
    ensures Commits(s, m) ==> Owns(s.threads[m.t])
  {
  }

  lemma OwnersOutstanding(s: Sys)
    requires Inv(s) && s.sh.enqueue == s.sh.preEnqueue && s.sh.dequeue == s.sh.preDequeue
    ensures forall t | 0 <= t < |s.threads| :: !Owns(s.threads[t])
  {
    hide DataOk, OutsOk, PartlyWritten, QueueSize, Slot, ProducersOk, ConsumersOk;
    forall t | 0 <= t < |s.threads| ensures !Owns(s.threads[t]) {
      ThreadOf(s, t);
      if s.threads[t].Filling? {
        LogBounds(s.sh, s.sh.published);
      } else if Owns(s.threads[t]) {
        LogBounds(s.sh, |s.sh.outs|);
      }
    }
  }

  lemma LogBounds(sh: Shared, k: nat)
    requires SharedOk(sh) && k < |sh.log|
    ensures sh.log[k].pos < sh.preEnqueue
    ensures forall j | k < j < |sh.log| :: sh.log[k].pos < sh.log[j].pos
  {
    hide DataOk, OutsOk, QueueSize;
    forall j | k < j < |sh.log| ensures sh.log[k].pos < sh.log[j].pos {
      PositionsRise(sh, k, j);
    }
  }

  ghost predicate AllCommit(s: Sys, moves: seq<Move>)
    decreases |moves|
  {
    moves == [] || (Commits(s, moves[0]) && AllCommit(Do(s, moves[0].t, moves[0].a), moves[1..]))
  }

  /** However the threads in flight are scheduled, each such step does one unit of the work: no run of them is
      longer than Work, and one that is as long ends with the cursors met. */
  lemma {:induction false} DrainsInWork(s: Sys, moves: seq<Move>)
    requires Inv(s) && AllCommit(s, moves)
    ensures Legal(s, moves) && Inv(Final(s, moves))
    ensures |moves| + Work(Final(s, moves).threads) == Work(s.threads)
    ensures Work(Final(s, moves).threads) == 0 ==>
      var f := Final(s, moves).sh; f.enqueue == f.preEnqueue && f.dequeue == f.preDequeue
    decreases |moves|
  {
    hide Inv, Do, Enabled;
    if moves == [] {
      NeverStuck(s);
    } else {
      StepInv(s, moves[0].t, moves[0].a);
      WorkFalls(s, moves[0]);
      DrainsInWork(Do(s, moves[0].t, moves[0].a), moves[1..]);
    }
  }

  /** And such a run can always be had: from every reachable state the threads in flight can be scheduled so that
      all of them finish, after exactly Work steps. */
  lemma {:induction false} CanDrain(s: Sys) returns (moves: seq<Move>)
    requires Inv(s)
    ensures AllCommit(s, moves) && Legal(s, moves) && |moves| == Work(s.threads)
    ensures var f := Final(s, moves).sh; f.enqueue == f.preEnqueue && f.dequeue == f.preDequeue
    decreases Work(s.threads)
  {
    hide Inv, Do, Enabled, Work;
    NeverStuck(s);
    if Work(s.threads) == 0 {
      moves := [];
    } else {
      var m :| Commits(s, m);
      StepInv(s, m.t, m.a);
      WorkFalls(s, m);
      var rest := CanDrain(Do(s, m.t, m.a));
      moves := [m] + rest;
      assert moves[1..] == rest;
    }
    DrainsInWork(s, moves);
  }
}
