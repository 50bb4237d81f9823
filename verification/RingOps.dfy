/** How the operations of the concurrent queue end: no call returns without its answer, and none is forgotten. */
module RingOps {
  import opened Bytes
  import opened RingLayout
  import opened RingProtocol
  import opened RingRuns
  import opened RingDelivery

  predicate InEnqueue(pc: PC) {
    pc.TryReserve? || pc.ReadReserved? || pc.Reserving? || pc.Filling?
  }

  predicate InDequeue(pc: PC) {
    pc.TryClaim? || pc.ReadClaimed? || pc.ReadingHeader? || pc.Copying? || pc.Dropping?
  }

  // ------------------------------------------------------------------------------------------------
  // One step
  // ------------------------------------------------------------------------------------------------

  /** A thread inside enqueue returns exactly with the step that publishes its own message or that finds no room;
      any other step leaves it inside, with the same message. */
  lemma EnqueueStep(s: Sys, t: nat, a: Action)
    requires Enabled(s, t, a) && InEnqueue(s.threads[t])
    ensures var msg, pc', event := s.threads[t].msg, Do(s, t, a).threads[t], EventOf(s, t, a);
      (pc'.Idle? <==> event == [Enq(msg)] || event == [SawFull]) &&
      (!pc'.Idle? ==> InEnqueue(pc') && pc'.msg == msg && event == [])
    ensures Do(s, t, a).sh.outs == s.sh.outs
  {
    hide LooksFull, Slot, Record, Below, ActualLen;
  }

  /** A thread inside dequeue returns exactly with the step that finds the queue empty or that hands its outcome back;
      any other step leaves it inside and hands nothing back. */
  lemma DequeueStep(s: Sys, t: nat, a: Action)
    requires Enabled(s, t, a) && InDequeue(s.threads[t])
    ensures var pc', event, outs, outs' := Do(s, t, a).threads[t], EventOf(s, t, a), s.sh.outs, Do(s, t, a).sh.outs;
      (pc'.Idle? <==> event == [SawEmpty] || |outs'| == |outs| + 1) &&
      (!pc'.Idle? ==> InDequeue(pc') && outs' == outs && event != [SawEmpty]) &&
      (pc'.Idle? && event != [SawEmpty] ==> outs' == outs + [OutcomeOf(s.threads[t])])
  {
    hide LooksFull, Slot, Record, Below, ActualLen, ActualLen32, HeaderLen, OutcomeOf;
  }

  /** A thread outside both only starts one of them. */
  lemma IdleStep(s: Sys, t: nat, a: Action)
    requires Enabled(s, t, a) && s.threads[t].Idle?
    ensures EventOf(s, t, a) == [] && Do(s, t, a).sh == s.sh
    ensures var pc' := Do(s, t, a).threads[t];
      (a.StartEnqueue? && InEnqueue(pc') && pc'.msg == a.msg) || (a.StartDequeue? && InDequeue(pc'))
  {
    hide LooksFull, Slot, Record, Below;
  }

  lemma OnlyIdleStarts(s: Sys, t: nat, a: Action)
    requires Enabled(s, t, a)
    ensures a.StartEnqueue? || a.StartDequeue? ==> s.threads[t].Idle?
    ensures InEnqueue(s.threads[t]) || InDequeue(s.threads[t]) || s.threads[t].Idle?
  {
  }

  // ------------------------------------------------------------------------------------------------
  // Whole runs
  // ------------------------------------------------------------------------------------------------

  /** The messages with which thread t called enqueue. */
  function Sent(moves: seq<Move>, t: nat): seq<Message> {
    if moves == [] then []
    else (if moves[0].t == t && moves[0].a.StartEnqueue? then [moves[0].a.msg] else []) + Sent(moves[1..], t)
  }

  /** An enqueue that has returned. */
  datatype Sending = Accepted(msg: Message) | Refused(msg: Message)

  /** How the enqueues of thread t returned, by the events of the history. */
  function SendingOf(s: Sys, t: nat, m: Move): seq<Sending>
    requires Enabled(s, m.t, m.a)
  {
    var event := EventOf(s, m.t, m.a);
    if m.t != t || event == [] then []
    else if event[0].Enq? then [Accepted(event[0].msg)]
    else if event[0].SawFull? && InEnqueue(s.threads[t]) then [Refused(s.threads[t].msg)]
    else []
  }

  ghost function Sendings(s: Sys, moves: seq<Move>, t: nat): seq<Sending>
    requires Legal(s, moves)
    decreases |moves|
  {
    if moves == [] then []
    else SendingOf(s, t, moves[0]) + Sendings(Do(s, moves[0].t, moves[0].a), moves[1..], t)
  }

  function MessagesOf(sendings: seq<Sending>): seq<Message> {
    seq(|sendings|, i requires 0 <= i < |sendings| => sendings[i].msg)
  }

  /** The message that thread t is enqueueing, if any. */
  function InFlight(s: Sys, t: nat): seq<Message> {
    if t < |s.threads| && InEnqueue(s.threads[t]) then [s.threads[t].msg] else []
  }

  lemma MessagesConcat(a: seq<Sending>, b: seq<Sending>)
    ensures MessagesOf(a + b) == MessagesOf(a) + MessagesOf(b)
  {
  }

  lemma SendingStep(s: Sys, t: nat, m: Move)
    requires Enabled(s, m.t, m.a)
    ensures InFlight(s, t) + (if m.t == t && m.a.StartEnqueue? then [m.a.msg] else []) ==
      MessagesOf(SendingOf(s, t, m)) + InFlight(Do(s, m.t, m.a), t)
  {
    hide EnabledAt, EventOf, NextPC, NextShared;
    OnlyIdleStarts(s, m.t, m.a);
    if m.t == t {
      if InEnqueue(s.threads[t]) {
        EnqueueStep(s, t, m.a);
      } else if s.threads[t].Idle? {
        IdleStep(s, t, m.a);
      } else {
        DequeueStep(s, t, m.a);
        NoEnqueueEvent(s, t, m.a);
      }
    }
  }

  lemma NoEnqueueEvent(s: Sys, t: nat, a: Action)
    requires Enabled(s, t, a) && InDequeue(s.threads[t])
    ensures EventOf(s, t, a) == [] || EventOf(s, t, a)[0].Deq? || EventOf(s, t, a)[0].SawEmpty?
  {
  }

  /** Every message that a thread calls enqueue with is, in the order of the calls, accepted or refused or the one it
      is still working on. */
  lemma {:induction false} NoneForgotten(s: Sys, moves: seq<Move>, t: nat)
    requires Legal(s, moves)
    ensures InFlight(s, t) + Sent(moves, t) == MessagesOf(Sendings(s, moves, t)) + InFlight(Final(s, moves), t)
    decreases |moves|
  {
    hide Enabled, Do, InFlight, SendingOf, MessagesOf;
    if moves == [] {
      assert MessagesOf([]) == [] by { NoMessages(); }
    } else {
      var m := moves[0];
      var s' := Do(s, m.t, m.a);
      var start := if m.t == t && m.a.StartEnqueue? then [m.a.msg] else [];
      SendingStep(s, t, m);
      NoneForgotten(s', moves[1..], t);
      MessagesConcat(SendingOf(s, t, m), Sendings(s', moves[1..], t));
      Exchange(InFlight(s, t), start, MessagesOf(SendingOf(s, t, m)), InFlight(s', t), Sent(moves[1..], t),
        MessagesOf(Sendings(s', moves[1..], t)), InFlight(Final(s, moves), t));
    }
  }

  lemma NoMessages()
    ensures MessagesOf([]) == []
  {
  }

  lemma Exchange<T>(a: seq<T>, b: seq<T>, c: seq<T>, d: seq<T>, e: seq<T>, f: seq<T>, g: seq<T>)
    requires a + b == c + d && d + e == f + g
    ensures a + (b + e) == c + f + g
  {
    assert a + (b + e) == (a + b) + e == (c + d) + e == c + (d + e) == c + (f + g);
  }

  /** How often thread t called dequeue. */
  function Asks(moves: seq<Move>, t: nat): nat {
    if moves == [] then 0
    else (if moves[0].t == t && moves[0].a.StartDequeue? then 1 else 0) + Asks(moves[1..], t)
  }

  /** A dequeue that has returned. */
  datatype Answer = Nothing | Handed(out: Outcome)

  /** How the dequeues of thread t returned. */
  function AnswerOf(s: Sys, t: nat, m: Move): seq<Answer>
    requires Enabled(s, m.t, m.a)
  {
    var outs := Do(s, m.t, m.a).sh.outs;
    if m.t != t then []
    else if EventOf(s, t, m.a) == [SawEmpty] then [Nothing]
    else if |outs| > |s.sh.outs| then [Handed(outs[|s.sh.outs|])]
    else []
  }

  ghost function Answers(s: Sys, moves: seq<Move>, t: nat): seq<Answer>
    requires Legal(s, moves)
    decreases |moves|
  {
    if moves == [] then []
    else AnswerOf(s, t, moves[0]) + Answers(Do(s, moves[0].t, moves[0].a), moves[1..], t)
  }

  function Asking(s: Sys, t: nat): nat {
    if t < |s.threads| && InDequeue(s.threads[t]) then 1 else 0
  }

  lemma AnswerStep(s: Sys, t: nat, m: Move)
    requires Enabled(s, m.t, m.a)
    ensures Asking(s, t) + (if m.t == t && m.a.StartDequeue? then 1 else 0) ==
      |AnswerOf(s, t, m)| + Asking(Do(s, m.t, m.a), t)
  {
    hide EnabledAt, EventOf, NextPC, NextShared, OutcomeOf;
    OnlyIdleStarts(s, m.t, m.a);
    if m.t == t {
      if InEnqueue(s.threads[t]) {
        EnqueueStep(s, t, m.a);
      } else if s.threads[t].Idle? {
        IdleStep(s, t, m.a);
      } else {
        DequeueStep(s, t, m.a);
      }
    }
  }

  /** Every dequeue that a thread calls has returned with "empty" or with an outcome, or is the one it is still
      working on. */
  lemma {:induction false} NoneUnanswered(s: Sys, moves: seq<Move>, t: nat)
    requires Legal(s, moves)
    ensures Asking(s, t) + Asks(moves, t) == |Answers(s, moves, t)| + Asking(Final(s, moves), t)
    decreases |moves|
  {
    hide Enabled, Do, Asking, AnswerOf;
    if moves != [] {
      AnswerStep(s, t, moves[0]);
      NoneUnanswered(Do(s, moves[0].t, moves[0].a), moves[1..], t);
    }
  }

  // ------------------------------------------------------------------------------------------------
  // Out of memory
  // ------------------------------------------------------------------------------------------------

  /** For each claim, in order, whether malloc failed for it. */
  ghost function Failures(s: Sys, moves: seq<Move>): seq<bool>
    requires Legal(s, moves)
    decreases |moves|
  {
    if moves == [] then []
    else FailureOf(s, moves[0]) + Failures(Do(s, moves[0].t, moves[0].a), moves[1..])
  }

  function FailureOf(s: Sys, m: Move): seq<bool>
    requires Enabled(s, m.t, m.a)
  {
    if m.a.Claim? && |Do(s, m.t, m.a).sh.claims| > |s.sh.claims| then [m.a.noMemory] else []
  }

  /** The failures so far are those of the claims made, and tell which outcomes are and will be lost. */
  ghost predicate Foretells(s: Sys, failed: seq<bool>) {
    |failed| == |s.sh.claims| && |s.sh.outs| <= |failed| &&
    (forall k | 0 <= k < |s.sh.outs| :: s.sh.outs[k].Lost? == failed[k]) &&
    forall t | 0 <= t < |s.threads| :: Foretold(s.threads[t], failed)
  }

  ghost predicate Foretold(pc: PC, failed: seq<bool>) {
    pc.Copying? || pc.Dropping? ==> pc.index < |failed| && pc.Dropping? == failed[pc.index]
  }

  lemma StepForetells(s: Sys, m: Move, failed: seq<bool>)
    requires Inv(s) && Enabled(s, m.t, m.a) && Foretells(s, failed)
    ensures Foretells(Do(s, m.t, m.a), failed + FailureOf(s, m))
  {
    hide Inv, EnabledAt, NextPC, NextShared, Foretold;
    InvOrdered(s);
    OwnForetold(s, m, failed);
    var s', failed' := Do(s, m.t, m.a), failed + FailureOf(s, m);
    forall t | 0 <= t < |s'.threads| ensures Foretold(s'.threads[t], failed') {
      if t != m.t {
        ForetoldMore(s.threads[t], failed, FailureOf(s, m));
      }
    }
  }

  lemma ForetoldMore(pc: PC, failed: seq<bool>, more: seq<bool>)
    requires Foretold(pc, failed)
    ensures Foretold(pc, failed + more)
  {
  }

  /** The thread that moves. */
  lemma OwnForetold(s: Sys, m: Move, failed: seq<bool>)
    requires Inv(s) && Enabled(s, m.t, m.a) && Ordered(s.sh) && Foretold(s.threads[m.t], failed)
    requires |failed| == |s.sh.claims| && |s.sh.outs| <= |failed|
    ensures var s', failed' := Do(s, m.t, m.a), failed + FailureOf(s, m);
      |failed'| == |s'.sh.claims| && |s'.sh.outs| <= |failed'| && Foretold(s'.threads[m.t], failed') &&
      (s'.sh.outs == s.sh.outs ||
      (|s'.sh.outs| == |s.sh.outs| + 1 && s.sh.outs <= s'.sh.outs &&
      s'.sh.outs[|s.sh.outs|].Lost? == failed'[|s.sh.outs|]))
  {
    hide Inv, LooksFull, Slot, Record, Below, ActualLen, ActualLen32, HeaderLen;
    if m.a.Release? && s.sh.dequeue == s.threads[m.t].pos {
      ReleaseOwn(s, m.t);
    }
  }

  lemma {:induction false} RunForetells(s: Sys, moves: seq<Move>, failed: seq<bool>)
    requires Inv(s) && Legal(s, moves) && Foretells(s, failed)
    ensures Foretells(Final(s, moves), failed + Failures(s, moves))
    decreases |moves|
  {
    hide Inv, Enabled, Do, Foretells, FailureOf;
    if moves == [] {
      assert failed + [] == failed;
    } else {
      var m := moves[0];
      StepForetells(s, m, failed);
      StepInv(s, m.t, m.a);
      RunForetells(Do(s, m.t, m.a), moves[1..], failed + FailureOf(s, m));
      ConcatAssociates(failed, FailureOf(s, m), Failures(Do(s, m.t, m.a), moves[1..]));
    }
  }

  /** From a fresh queue, in any interleaving: the k-th outcome is lost exactly if malloc failed for the k-th claim. */
  lemma LostByMallocOnly(s: Sys, moves: seq<Move>)
    requires Init(s) && Legal(s, moves)
    ensures var outs := Final(s, moves).sh.outs;
      |outs| <= |Failures(s, moves)| && forall k | 0 <= k < |outs| :: outs[k].Lost? <==> Failures(s, moves)[k]
  {
    hide Inv, Legal, Final, Failures;
    InitInv(s);
    RunForetells(s, moves, []);
    assert [] + Failures(s, moves) == Failures(s, moves);
  }

  // ------------------------------------------------------------------------------------------------
  // Every operation can return
  // ------------------------------------------------------------------------------------------------

  ghost predicate OnlyBy(moves: seq<Move>, t: nat) {
    forall i | 0 <= i < |moves| :: moves[i].t == t && !moves[i].a.StartEnqueue? && !moves[i].a.StartDequeue?
  }

  /** A thread left alone gets out of the retry loop of enqueue: it finds the queue full or wins a reservation. However
      stale what it has read is, it need not run through the loop more than twice. */
  lemma EnqueueAlone(s: Sys, t: nat) returns (moves: seq<Move>)
    requires Inv(s) && t < |s.threads| && InEnqueue(s.threads[t]) && !s.threads[t].Filling?
    requires s.sh.preEnqueue + ActualLen(|s.threads[t].msg|) < CURSOR_LIMIT
    ensures Legal(s, moves) && OnlyBy(moves, t) && |moves| <= 6
    ensures var f := Final(s, moves);
      Alone(s, t, f) && (f.threads[t].Idle? || f.threads[t].Filling?) &&
      s.sh.preEnqueue <= f.sh.preEnqueue <= s.sh.preEnqueue + ActualLen(|s.threads[t].msg|)
  {
    hide Inv, Legal, Final, ActualLen, LooksFull, Below;
    MemoryThere(s);
    var pc := s.threads[t];
    var msg := pc.msg;
    moves := [];
    assert Legal(s, moves) && Final(s, moves) == At(s, t, pc) by { NoStep(s, t); }
    if pc.ReadReserved? {
      moves := LocalMove(s, t, moves, pc, ReadDequeue);
      pc := NextPC(s.sh, pc, ReadDequeue);
    }
    if pc.Reserving? && pc.pos != s.sh.preEnqueue {
      moves := LocalMove(s, t, moves, pc, Reserve);
      pc := TryReserve(msg);
    }
    if pc.TryReserve? {
      moves := LocalMove(s, t, moves, pc, ReadPreEnqueue);
      pc := ReadReserved(msg, s.sh.preEnqueue);
      moves := LocalMove(s, t, moves, pc, ReadDequeue);
      pc := NextPC(s.sh, pc, ReadDequeue);
    }
    if pc.Reserving? {
      moves := LastMove(s, t, moves, pc, Reserve);
    }
  }

  /** What a thread that runs alone leaves as it was. */
  ghost predicate Alone(s: Sys, t: nat, f: Sys) {
    |f.threads| == |s.threads| && (forall u | 0 <= u < |s.threads| && u != t :: f.threads[u] == s.threads[u]) &&
    f.sh.enqueue == s.sh.enqueue && f.sh.outs == s.sh.outs
  }

  lemma MemoryThere(s: Sys)
    requires Inv(s)
    ensures |s.sh.mem| > 0 && s.sh.preEnqueue < CURSOR_LIMIT
  {
    hide DataOk, OutsOk, LogOk, ThreadsOk, ProducersOk, ConsumersOk;
  }

  /** A step of thread t that may change what is shared. */
  lemma LastMove(s: Sys, t: nat, moves: seq<Move>, pc: PC, a: Action) returns (more: seq<Move>)
    requires Legal(s, moves) && t < |s.threads| && Final(s, moves) == At(s, t, pc)
    requires |s.sh.mem| > 0 && EnabledAt(s.sh, pc, a)
    ensures more == moves + [Move(t, a)] && Legal(s, more)
    ensures Final(s, more) == Sys(NextShared(s.sh, t, pc, a), s.threads[t := NextPC(s.sh, pc, a)])
  {
    hide EnabledAt, NextPC, NextShared;
    more := moves + [Move(t, a)];
    assert s.threads[t := pc][t := NextPC(s.sh, pc, a)] == s.threads[t := NextPC(s.sh, pc, a)];
    OneStep(At(s, t, pc), Move(t, a));
    RunConcat(s, moves, [Move(t, a)]);
  }

  lemma HeaderReadable(s: Sys, pos: nat)
    requires Inv(s) && pos % 8 == 0
    ensures |s.sh.mem| > 0 && Slot(pos, |s.sh.mem|) + 3 < |s.sh.mem|
  {
    hide DataOk, OutsOk, LogOk, Slot, ThreadsOk, ProducersOk, ConsumersOk;
    AlignedSlot(pos, |s.sh.mem|);
  }

  /** What is left of a header is read. */
  lemma ReadsAll(s: Sys, t: nat, moves: seq<Move>, room: nat, pos: nat, got: map<nat, byte>)
    returns (more: seq<Move>, all: map<nat, byte>)
    requires Inv(s) && pos % 8 == 0 && got.Keys <= Below(4) && t < |s.threads|
    requires Legal(s, moves) && OnlyBy(moves, t) && Final(s, moves) == At(s, t, ReadingHeader(room, pos, got))
    ensures Legal(s, more) && OnlyBy(more, t) && all.Keys == Below(4) && |more| == |moves| + 4
    ensures Final(s, more) == At(s, t, ReadingHeader(room, pos, all))
  {
    hide Inv, Below, Legal, Final;
    HeaderReadable(s, pos);
    more, all := moves, got;
    for o := 0 to 4
      invariant Legal(s, more) && OnlyBy(more, t) && |more| == |moves| + o
      invariant Final(s, more) == At(s, t, ReadingHeader(room, pos, all))
      invariant all.Keys <= Below(4) && forall i: nat :: i < o ==> i in all
    {
      more := LocalMove(s, t, more, ReadingHeader(room, pos, all), ReadHeaderByte(o));
      all := all[o := s.sh.mem[Slot(pos, |s.sh.mem|) + o]];
    }
    assert all.Keys == Below(4);
  }

  /** A position that is read now is aligned, and so is one that was read before. */
  lemma PositionsAligned(s: Sys, t: nat)
    requires Inv(s) && t < |s.threads|
    ensures s.sh.preDequeue % 8 == 0
    ensures s.threads[t].ReadClaimed? || s.threads[t].ReadingHeader? ==> s.threads[t].pos % 8 == 0
    ensures s.threads[t].ReadingHeader? ==> s.threads[t].got.Keys <= Below(4)
  {
    hide SharedOk, ThreadsOk, ProducersOk, ConsumersOk, HeaderSeen;
    ThreadOf(s, t);
    PreDequeueAligned(s.sh);
  }

  /** Through a stale position the header is read in vain. */
  lemma ClaimLost(s: Sys, t: nat, moves: seq<Move>, pc: PC) returns (more: seq<Move>)
    requires Inv(s) && t < |s.threads| && Legal(s, moves) && OnlyBy(moves, t) && Final(s, moves) == At(s, t, pc)
    requires pc.ReadingHeader? && pc.pos % 8 == 0 && pc.got.Keys <= Below(4) && pc.pos != s.sh.preDequeue
    ensures Legal(s, more) && OnlyBy(more, t) && |more| == |moves| + 5
    ensures Final(s, more) == At(s, t, TryClaim(pc.room))
  {
    hide Inv, Legal, Final, Below, HeaderLen, Slot;
    MemoryThere(s);
    var got;
    more, got := ReadsAll(s, t, moves, pc.room, pc.pos, pc.got);
    more := LocalMove(s, t, more, ReadingHeader(pc.room, pc.pos, got), Claim(false));
  }

  lemma ClaimWon(s: Sys, t: nat, moves: seq<Move>, pc: PC) returns (more: seq<Move>)
    requires Inv(s) && t < |s.threads| && Legal(s, moves) && OnlyBy(moves, t) && Final(s, moves) == At(s, t, pc)
    requires pc.ReadingHeader? && pc.pos % 8 == 0 && pc.got.Keys <= Below(4) && pc.pos == s.sh.preDequeue
    ensures Legal(s, more) && OnlyBy(more, t) && |more| == |moves| + 5
    ensures var f := Final(s, more); Alone(s, t, f) && f.threads[t].Copying? && f.sh.preEnqueue == s.sh.preEnqueue
  {
    hide Inv, Legal, Final, Below, HeaderLen, Slot;
    MemoryThere(s);
    var got;
    more, got := ReadsAll(s, t, moves, pc.room, pc.pos, pc.got);
    more := LastMove(s, t, more, ReadingHeader(pc.room, pc.pos, got), Claim(false));
  }

  /** Likewise a thread left alone gets out of the retry loop of dequeue: it finds the queue empty or wins a claim. */
  lemma DequeueAlone(s: Sys, t: nat) returns (moves: seq<Move>)
    requires Inv(s) && t < |s.threads| && InDequeue(s.threads[t]) && !Owns(s.threads[t])
    ensures Legal(s, moves) && OnlyBy(moves, t) && |moves| <= 13
    ensures var f := Final(s, moves);
      Alone(s, t, f) && (f.threads[t].Idle? || f.threads[t].Copying?) && f.sh.preEnqueue == s.sh.preEnqueue
  {
    hide Inv, Legal, Final, Below, HeaderLen, Slot;
    PositionsAligned(s, t);
    MemoryThere(s);
    var pc := s.threads[t];
    moves := [];
    assert Legal(s, moves) && Final(s, moves) == At(s, t, pc) by { NoStep(s, t); }
    if pc.ReadClaimed? {
      moves := LocalMove(s, t, moves, pc, ReadEnqueue);
      pc := NextPC(s.sh, pc, ReadEnqueue);
    }
    if pc.ReadingHeader? && pc.pos != s.sh.preDequeue {
      moves := ClaimLost(s, t, moves, pc);
      pc := TryClaim(pc.room);
    }
    if pc.TryClaim? {
      moves := LocalMove(s, t, moves, pc, ReadPreDequeue);
      pc := ReadClaimed(pc.room, s.sh.preDequeue);
      moves := LocalMove(s, t, moves, pc, ReadEnqueue);
      pc := NextPC(s.sh, pc, ReadEnqueue);
    }
    if pc.ReadingHeader? {
      moves := ClaimWon(s, t, moves, pc);
    }
  }

  /** The most that one enqueue moves m_pre_enqueue_pos. */
  const STEP: nat := MAX_MESSAGE + 2 * HEADER

  lemma MessageFits(s: Sys, t: nat)
    requires Inv(s) && t < |s.threads| && InEnqueue(s.threads[t]) && !s.threads[t].Filling?
    ensures ActualLen(|s.threads[t].msg|) <= STEP
  {
    hide SharedOk, ThreadsOk, ProducersOk, ConsumersOk, PartlyWritten;
    ThreadOf(s, t);
  }

  /** Thread t gets out of its retry loop. */
  lemma Settles(s: Sys, t: nat) returns (moves: seq<Move>)
    requires Inv(s) && t < |s.threads| && s.sh.preEnqueue + STEP < CURSOR_LIMIT
    ensures Legal(s, moves) && OnlyBy(moves, t) && Inv(Final(s, moves))
    ensures var f := Final(s, moves);
      Alone(s, t, f) && (Owns(f.threads[t]) || f.threads[t].Idle?) && f.sh.preEnqueue <= s.sh.preEnqueue + STEP
  {
    hide Inv, Legal, Final, ActualLen;
    var pc := s.threads[t];
    if InEnqueue(pc) && !pc.Filling? {
      MessageFits(s, t);
      moves := EnqueueAlone(s, t);
    } else if InDequeue(pc) && !Owns(pc) {
      moves := DequeueAlone(s, t);
    } else {
      moves := [];
      NoStep(s, t);
    }
    RunInv(s, moves);
  }

  ghost predicate StartsNothing(moves: seq<Move>) {
    forall i | 0 <= i < |moves| :: !moves[i].a.StartEnqueue? && !moves[i].a.StartDequeue?
  }

  ghost predicate Settled(threads: seq<PC>, n: nat) {
    forall u | 0 <= u < n && u < |threads| :: Owns(threads[u]) || threads[u].Idle?
  }

  lemma AllSettle(s: Sys) returns (moves: seq<Move>)
    requires Inv(s) && s.sh.preEnqueue + |s.threads| * STEP < CURSOR_LIMIT
    ensures Legal(s, moves) && StartsNothing(moves) && Inv(Final(s, moves))
    ensures |Final(s, moves).threads| == |s.threads| && Settled(Final(s, moves).threads, |s.threads|)
  {
    hide Inv, Legal, Final, Owns;
    moves := [];
    assert Legal(s, moves) && Final(s, moves) == s by { NoSteps(s); }
    for u := 0 to |s.threads|
      invariant Legal(s, moves) && StartsNothing(moves) && Inv(Final(s, moves))
      invariant |Final(s, moves).threads| == |s.threads| && Settled(Final(s, moves).threads, u)
      invariant Final(s, moves).sh.preEnqueue <= s.sh.preEnqueue + u * STEP
    {
      var f := Final(s, moves);
      Steps(u, |s.threads|);
      var more := Settles(f, u);
      RunConcat(s, moves, more);
      moves := moves + more;
    }
  }

  lemma Steps(u: nat, n: nat)
    requires u < n
    ensures u * STEP + STEP == (u + 1) * STEP <= n * STEP
  {
    assert n * STEP == (u + 1) * STEP + (n - u - 1) * STEP;
  }

  lemma NoSteps(s: Sys)
    ensures Legal(s, []) && Final(s, []) == s
  {
  }

  /** From every reachable state, whatever all the threads are at and however stale what they have read is, there is a
      continuation in which none of them starts anything and every one of them returns. */
  lemma AllReturn(s: Sys) returns (moves: seq<Move>)
    requires Inv(s) && s.sh.preEnqueue + |s.threads| * STEP < CURSOR_LIMIT
    ensures Legal(s, moves) && StartsNothing(moves)
    ensures var f := Final(s, moves);
      |f.threads| == |s.threads| && (forall t | 0 <= t < |f.threads| :: f.threads[t].Idle?) &&
      f.sh.enqueue == f.sh.preEnqueue && f.sh.dequeue == f.sh.preDequeue
  {
    hide Inv, Legal, Final, Owns, AllCommit, Work;
    moves := AllSettle(s);
    var mid := Final(s, moves);
    var rest := CanDrain(mid);
    DrainsInWork(mid, rest);
    WorkPositive(Final(mid, rest).threads);
    DrainStarts(mid, rest);
    var f := Final(mid, rest);
    assert |f.threads| == |s.threads| by { DrainKeeps(mid, rest); }
    forall t | 0 <= t < |f.threads| ensures f.threads[t].Idle? {
      assert Owns(mid.threads[t]) || mid.threads[t].Idle?;
      WorkingStays(mid, rest, t, 0);
    }
    RunConcat(s, moves, rest);
    moves := moves + rest;
  }

  lemma SameThreads(s: Sys, m: Move)
    requires Enabled(s, m.t, m.a)
    ensures |Do(s, m.t, m.a).threads| == |s.threads|
  {
  }

  lemma {:induction false} DrainKeeps(s: Sys, moves: seq<Move>)
    requires AllCommit(s, moves) && Legal(s, moves)
    ensures |Final(s, moves).threads| == |s.threads|
    decreases |moves|
  {
    hide Enabled, Do;
    if moves != [] {
      SameThreads(s, moves[0]);
      DrainKeeps(Do(s, moves[0].t, moves[0].a), moves[1..]);
    }
  }

  lemma {:induction false} DrainStarts(s: Sys, moves: seq<Move>)
    requires AllCommit(s, moves)
    ensures StartsNothing(moves)
    decreases |moves|
  {
    hide Do, Enabled;
    if moves != [] {
      DrainStarts(Do(s, moves[0].t, moves[0].a), moves[1..]);
      forall i | 0 <= i < |moves| ensures !moves[i].a.StartEnqueue? && !moves[i].a.StartDequeue? {
        if i > 0 {
          assert moves[i] == moves[1..][i - 1];
        }
      }
    }
  }
}
