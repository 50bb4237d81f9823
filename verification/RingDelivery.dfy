/** Callers of the concurrent queue that always bring enough room: none of their messages is lost, and once the
    cursors have met every one of them has been delivered. */
module RingDelivery {
  import opened Bytes
  import opened RingLayout
  import opened RingProtocol
  import opened RingRuns

  /** Only messages that are `sent` are given to enqueue, and dequeue is never offered less than `room`. */
  predicate Asked(a: Action, sent: Message -> bool, room: nat) {
    (a.StartEnqueue? ==> sent(a.msg)) && (a.StartDequeue? ==> a.room >= room)
  }

  ghost predicate AllAsked(moves: seq<Move>, sent: Message -> bool, room: nat) {
    forall i | 0 <= i < |moves| :: Asked(moves[i].a, sent, room)
  }

  /** Every message that is sent has room. */
  ghost predicate Roomy(sent: Message -> bool, room: nat) {
    forall msg: Message :: sent(msg) ==> |msg| <= room
  }

  predicate HoldsSent(pc: PC, sent: Message -> bool, room: nat) {
    match pc
    case TryReserve(msg) => sent(msg)
    case ReadReserved(msg, _) => sent(msg)
    case Reserving(msg, _, _) => sent(msg)
    case TryClaim(r) => r >= room
    case ReadClaimed(r, _) => r >= room
    case ReadingHeader(r, _, _) => r >= room
    case Dropping(_, _, _) => false
    case _ => true
  }

  ghost predicate ThreadsSent(threads: seq<PC>, sent: Message -> bool, room: nat) {
    forall t | 0 <= t < |threads| :: HoldsSent(threads[t], sent, room)
  }

  ghost predicate LogSent(log: seq<Reservation>, sent: Message -> bool) {
    forall k | 0 <= k < |log| :: sent(log[k].msg)
  }

  ghost predicate AllGot(outs: seq<Outcome>) {
    forall k | 0 <= k < |outs| :: outs[k].Got?
  }

  /** Nothing is being lost. */
  ghost predicate Lossless(s: Sys, sent: Message -> bool, room: nat) {
    ThreadsSent(s.threads, sent, room) && LogSent(s.sh.log, sent) && AllGot(s.sh.outs)
  }

  /** The thread that moves: where a claim is won, the header tells the true length, so malloc is not called. */
  lemma StepHolds(s: Sys, t: nat, a: Action, sent: Message -> bool, room: nat)
    requires Inv(s) && Enabled(s, t, a) && Asked(a, sent, room) && Roomy(sent, room)
    requires HoldsSent(s.threads[t], sent, room) && LogSent(s.sh.log, sent)
    ensures HoldsSent(NextPC(s.sh, s.threads[t], a), sent, room)
  {
    hide Inv, LooksFull, Slot, HeaderLen, Below;
    if a.Claim? && s.sh.preDequeue == s.threads[t].pos {
      ClaimedLen(s, t, a.noMemory);
      assert sent(s.sh.log[|s.sh.claims|].msg);
    }
  }

  lemma StepLog(sh: Shared, t: nat, pc: PC, a: Action, sent: Message -> bool, room: nat)
    requires |sh.mem| > 0 && EnabledAt(sh, pc, a)
    requires HoldsSent(pc, sent, room) && LogSent(sh.log, sent) && AllGot(sh.outs)
    ensures LogSent(NextShared(sh, t, pc, a).log, sent) && AllGot(NextShared(sh, t, pc, a).outs)
  {
    hide Slot, Record, HeaderLen, Below, ActualLen, ActualLen32;
  }

  lemma StepLossless(s: Sys, t: nat, a: Action, sent: Message -> bool, room: nat)
    requires Inv(s) && Enabled(s, t, a) && Asked(a, sent, room) && Roomy(sent, room) && Lossless(s, sent, room)
    ensures Lossless(Do(s, t, a), sent, room)
  {
    hide Inv, EnabledAt, NextPC, NextShared, HoldsSent, Asked, Roomy, LogSent, AllGot;
    StepHolds(s, t, a, sent, room);
    StepLog(s.sh, t, s.threads[t], a, sent, room);
  }

  lemma {:induction false} RunLossless(s: Sys, moves: seq<Move>, sent: Message -> bool, room: nat)
    requires Inv(s) && Legal(s, moves) && AllAsked(moves, sent, room) && Roomy(sent, room) && Lossless(s, sent, room)
    ensures Lossless(Final(s, moves), sent, room)
    decreases |moves|
  {
    hide Inv, Do, Enabled, Lossless, Asked, Roomy;
    if moves != [] {
      var t, a := moves[0].t, moves[0].a;
      assert Asked(a, sent, room);
      StepInv(s, t, a);
      StepLossless(s, t, a, sent, room);
      RunLossless(Do(s, t, a), moves[1..], sent, room);
    }
  }

  /** From a fresh queue, in any interleaving: if every message that is sent has room at every receiver, no return
      of dequeue has lost its bytes, and every message published is one that was sent. */
  lemma NothingLost(s: Sys, moves: seq<Move>, sent: Message -> bool, room: nat)
    requires Init(s) && Legal(s, moves) && AllAsked(moves, sent, room) && Roomy(sent, room)
    ensures forall k | 0 <= k < |Final(s, moves).sh.outs| :: Final(s, moves).sh.outs[k].Got?
    ensures forall k | 0 <= k < |Enqs(Trace(s, moves))| :: sent(Enqs(Trace(s, moves))[k])
  {
    hide Inv, Legal, Final, Trace, Enqs, Deqs, Roomy, AllAsked;
    InitInv(s);
    RunLossless(s, moves, sent, room);
    PublishedIsEnqs(s, moves);
    var f := Final(s, moves).sh;
    forall k | 0 <= k < f.published ensures sent(Published(f)[k]) {
      assert sent(f.log[k].msg);
    }
  }

  lemma PublishedIsEnqs(s: Sys, moves: seq<Move>)
    requires Init(s) && Legal(s, moves)
    ensures Inv(Final(s, moves)) && Ordered(Final(s, moves).sh)
    ensures Enqs(Trace(s, moves)) == Published(Final(s, moves).sh)
    ensures |Enqs(Trace(s, moves))| == Final(s, moves).sh.published
  {
    hide Inv, Legal, Final, Trace, Enqs, Deqs, Replay, Waiting;
    InitInv(s);
    RunRefines(s, moves);
    assert Published(s.sh) == [];
  }

  /** Records take space: the oldest record not released ends above m_dequeue_pos. */
  lemma MetMeansAll(sh: Shared)
    requires CursorsOk(sh) && LogOk(sh)
    ensures |sh.outs| == sh.published <==> sh.dequeue == sh.enqueue
    ensures |sh.claims| == sh.published <==> sh.preDequeue == sh.enqueue
  {
    hide QueueSize;
    if |sh.outs| < sh.published {
      RecordEnds(sh, |sh.outs|);
      PosGrows(sh, |sh.outs| + 1, sh.published);
    }
    if |sh.claims| < sh.published {
      FirstUnclaimedEnds(sh);
    }
  }

  /** Everything that went in has come out exactly when m_dequeue_pos has met m_enqueue_pos; and it has once everything
      published is claimed and no thread is at work. */
  lemma AllDelivered(s: Sys, moves: seq<Move>)
    requires Init(s) && Legal(s, moves)
    ensures var f := Final(s, moves);
      |f.sh.outs| <= |Enqs(Trace(s, moves))| &&
      (|f.sh.outs| == |Enqs(Trace(s, moves))| <==> f.sh.dequeue == f.sh.enqueue) &&
      (Work(f.threads) == 0 && f.sh.preDequeue == f.sh.enqueue ==> |f.sh.outs| == |Enqs(Trace(s, moves))|)
  {
    hide Legal, Final, Trace, Enqs, DataOk, OutsOk, QueueSize, LogOk, ThreadsOk, ProducersOk, ConsumersOk, Published;
    PublishedIsEnqs(s, moves);
    NeverStuck(Final(s, moves));
    MetMeansAll(Final(s, moves).sh);
  }

  // ------------------------------------------------------------------------------------------------
  // And it can always be brought about
  // ------------------------------------------------------------------------------------------------

  lemma {:induction false} RunConcat(s: Sys, a: seq<Move>, b: seq<Move>)
    requires Legal(s, a) && Legal(Final(s, a), b)
    ensures Legal(s, a + b) && Final(s, a + b) == Final(Final(s, a), b)
    ensures Trace(s, a + b) == Trace(s, a) + Trace(Final(s, a), b)
    decreases |a|
  {
    hide Do, Enabled, EventOf;
    if a == [] {
      assert a + b == b;
    } else {
      assert (a + b)[0] == a[0] && (a + b)[1..] == a[1..] + b;
      RunConcat(Do(s, a[0].t, a[0].a), a[1..], b);
    }
  }

  lemma OneStep(s: Sys, m: Move)
    requires Enabled(s, m.t, m.a)
    ensures Legal(s, [m]) && Final(s, [m]) == Do(s, m.t, m.a)
  {
    hide Do, Enabled;
    assert [m][1..] == [];
    assert Legal(Do(s, m.t, m.a), []);
  }

  /** The state in which thread t stands at pc and nothing else differs from s. */
  function At(s: Sys, t: nat, pc: PC): Sys
    requires t < |s.threads|
  {
    Sys(s.sh, s.threads[t := pc])
  }

  /** One more step of thread t that touches nothing shared. */
  lemma LocalMove(s: Sys, t: nat, moves: seq<Move>, pc: PC, a: Action) returns (more: seq<Move>)
    requires Legal(s, moves) && t < |s.threads| && Final(s, moves) == At(s, t, pc)
    requires |s.sh.mem| > 0 && EnabledAt(s.sh, pc, a) && NextShared(s.sh, t, pc, a) == s.sh
    ensures more == moves + [Move(t, a)] && Legal(s, more) && Final(s, more) == At(s, t, NextPC(s.sh, pc, a))
  {
    hide EnabledAt, NextPC, NextShared;
    more := moves + [Move(t, a)];
    assert s.threads[t := pc][t := NextPC(s.sh, pc, a)] == s.threads[t := NextPC(s.sh, pc, a)];
    OneStep(At(s, t, pc), Move(t, a));
    RunConcat(s, moves, [Move(t, a)]);
  }

  /** No new message, and the given room for every receiver. */
  ghost predicate OnlyReceives(moves: seq<Move>, room: nat) {
    forall i | 0 <= i < |moves| :: !moves[i].a.StartEnqueue? && (moves[i].a.StartDequeue? ==> moves[i].a.room == room)
  }

  /** An idle thread that finds a published record reads its header. */
  lemma ReadsHeader(s: Sys, t: nat, room: nat) returns (moves: seq<Move>, got: map<nat, byte>)
    requires Inv(s) && t < |s.threads| && s.threads[t].Idle? && s.sh.preDequeue != s.sh.enqueue
    ensures Legal(s, moves) && OnlyReceives(moves, room) && got.Keys == Below(4)
    ensures Final(s, moves) == At(s, t, ReadingHeader(room, s.sh.preDequeue, got))
  {
    hide Inv, Below, Legal, Final;
    HeaderInReach(s);
    var pos := s.sh.preDequeue;
    moves := [];
    assert Legal(s, moves) && Final(s, moves) == At(s, t, Idle) by { NoStep(s, t); }
    moves := LocalMove(s, t, moves, Idle, StartDequeue(room));
    moves := LocalMove(s, t, moves, TryClaim(room), ReadPreDequeue);
    moves := LocalMove(s, t, moves, ReadClaimed(room, pos), ReadEnqueue);
    got := map[];
    for o := 0 to 4
      invariant Legal(s, moves) && OnlyReceives(moves, room)
      invariant Final(s, moves) == At(s, t, ReadingHeader(room, pos, got))
      invariant forall i: nat :: i in got <==> i < o
    {
      moves := LocalMove(s, t, moves, ReadingHeader(room, pos, got), ReadHeaderByte(o));
      got := got[o := s.sh.mem[Slot(pos, |s.sh.mem|) + o]];
    }
    assert got.Keys == Below(4);
  }

  lemma NoStep(s: Sys, t: nat)
    requires t < |s.threads|
    ensures Legal(s, []) && Final(s, []) == At(s, t, s.threads[t])
  {
    assert s.threads[t := s.threads[t]] == s.threads;
  }

  lemma HeaderInReach(s: Sys)
    requires Inv(s)
    ensures |s.sh.mem| > 0 && Slot(s.sh.preDequeue, |s.sh.mem|) + 3 < |s.sh.mem|
  {
    hide DataOk, OutsOk, LogOk, Slot, ThreadsOk, ProducersOk, ConsumersOk;
    PreDequeueAligned(s.sh);
    AlignedSlot(s.sh.preDequeue, |s.sh.mem|);
  }

  /** An idle thread can claim the oldest record that is published. */
  lemma ClaimsOne(s: Sys, t: nat, room: nat) returns (moves: seq<Move>)
    requires Inv(s) && t < |s.threads| && s.threads[t].Idle? && s.sh.preDequeue != s.sh.enqueue
    ensures Legal(s, moves) && OnlyReceives(moves, room) && Inv(Final(s, moves))
    ensures var f := Final(s, moves);
      |f.threads| == |s.threads| && f.threads[t].Copying? && |f.sh.claims| == |s.sh.claims| + 1 &&
      f.sh.log == s.sh.log && f.sh.enqueue == s.sh.enqueue && f.sh.preEnqueue == s.sh.preEnqueue
  {
    hide Inv, Legal, Final, Below, HeaderLen, Slot;
    var got;
    moves, got := ReadsHeader(s, t, room);
    HeaderInReach(s);
    var claim := [Move(t, Claim(false))];
    OneStep(Final(s, moves), claim[0]);
    RunConcat(s, moves, claim);
    moves := moves + claim;
    RunInv(s, moves);
  }

  lemma RunInv(s: Sys, moves: seq<Move>)
    requires Inv(s) && Legal(s, moves)
    ensures Inv(Final(s, moves))
  {
    RunRefines(s, moves);
  }

  /** What working steps leave alone: no thread starts anything, and nothing is reserved or claimed. */
  lemma {:induction false} WorkingStays(s: Sys, moves: seq<Move>, t: nat, room: nat)
    requires AllCommit(s, moves) && Legal(s, moves) && t < |s.threads| && (Owns(s.threads[t]) || s.threads[t].Idle?)
    ensures OnlyReceives(moves, room)
    ensures var f := Final(s, moves);
      |f.threads| == |s.threads| && (Owns(f.threads[t]) || f.threads[t].Idle?) &&
      f.sh.preEnqueue == s.sh.preEnqueue && f.sh.claims == s.sh.claims && f.sh.log == s.sh.log
    decreases |moves|
  {
    hide Do, Enabled;
    if moves != [] {
      var m := moves[0];
      WorkingStep(s, m, t);
      WorkingStays(Do(s, m.t, m.a), moves[1..], t, room);
    }
  }

  lemma WorkingStep(s: Sys, m: Move, t: nat)
    requires Commits(s, m) && t < |s.threads| && (Owns(s.threads[t]) || s.threads[t].Idle?)
    ensures !m.a.StartEnqueue? && !m.a.StartDequeue?
    ensures var s' := Do(s, m.t, m.a);
      |s'.threads| == |s.threads| && (Owns(s'.threads[t]) || s'.threads[t].Idle?) &&
      s'.sh.preEnqueue == s.sh.preEnqueue && s'.sh.claims == s.sh.claims && s'.sh.log == s.sh.log
  {
    hide Below, Slot, Record, ActualLen, ActualLen32;
  }

  /** The threads in flight finish, and a thread that is idle or at work is idle afterwards. */
  lemma Finishes(s: Sys, t: nat, room: nat) returns (moves: seq<Move>)
    requires Inv(s) && t < |s.threads| && (Owns(s.threads[t]) || s.threads[t].Idle?)
    ensures Legal(s, moves) && OnlyReceives(moves, room) && Inv(Final(s, moves))
    ensures var f := Final(s, moves);
      |f.threads| == |s.threads| && f.threads[t].Idle? && |f.sh.claims| == |s.sh.claims| && |f.sh.log| == |s.sh.log| &&
      f.sh.enqueue == f.sh.preEnqueue == s.sh.preEnqueue && f.sh.dequeue == f.sh.preDequeue
  {
    hide Inv, Legal, Final, AllCommit, Work, Owns;
    moves := CanDrain(s);
    DrainsInWork(s, moves);
    WorkingStays(s, moves, t, room);
    WorkPositive(Final(s, moves).threads);
  }

  /** From every reachable state in which some thread is free to receive there is a continuation, with no new message,
      after which everything that ever got a reservation has been delivered. */
  lemma CanDeliver(s: Sys, t: nat, room: nat) returns (moves: seq<Move>)
    requires Inv(s) && t < |s.threads| && s.threads[t].Idle?
    ensures Legal(s, moves) && OnlyReceives(moves, room) && Inv(Final(s, moves))
    ensures var f := Final(s, moves).sh; f.dequeue == f.enqueue == f.preEnqueue == s.sh.preEnqueue
  {
    hide Inv, Legal, Final;
    moves := Finishes(s, t, room);
    while Final(s, moves).sh.preDequeue != s.sh.preEnqueue
      invariant Legal(s, moves) && OnlyReceives(moves, room) && Inv(Final(s, moves))
      invariant var f := Final(s, moves);
        t < |f.threads| && f.threads[t].Idle? && |f.sh.log| == |s.sh.log| &&
        f.sh.enqueue == f.sh.preEnqueue == s.sh.preEnqueue && f.sh.dequeue == f.sh.preDequeue
      decreases |s.sh.log| - |Final(s, moves).sh.claims|
    {
      var f := Final(s, moves);
      var claim := ClaimsOne(f, t, room);
      RunConcat(s, moves, claim);
      var finish := Finishes(Final(f, claim), t, room);
      RunConcat(s, moves + claim, finish);
      moves := moves + claim + finish;
      InvOrdered(Final(s, moves));
    }
  }
}
