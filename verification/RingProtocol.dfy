/** The concurrent queue of queue.cpp as a transition system: any number of threads, every shared
    access its own step, copies one byte at a time and in any order, reads possibly stale.
    Sequential consistency is assumed; spinning, pausing and yielding are stuttering. */
module RingProtocol {
  import opened Bytes
  import opened RingLayout

  const UINT64: int := 0x1_0000_0000_0000_0000
  /** Cursors stay below this in every run considered: 64-bit wrap-around is out of reach. */
  const CURSOR_LIMIT: int := 0x8000_0000_0000_0000

  /** History: a won reservation, where it lies and which thread made it. */
  datatype Reservation = Reservation(pos: nat, msg: Message, maker: nat)

  /** What dequeue hands back when it returns: the bytes, or only a length when malloc failed. */
  datatype Outcome = Got(data: seq<byte>) | Lost(len: nat)

  /** Where a thread stands, with the values it holds in locals. */
  datatype PC =
    | Idle
    | TryReserve(msg: Message)                                        // top of the loop in enqueue
    | ReadReserved(msg: Message, pos: nat)                            // m_pre_enqueue_pos read
    | Reserving(msg: Message, pos: nat, seen: nat)                    // m_dequeue_pos read, room was found
    | Filling(msg: Message, pos: nat, todo: set<nat>, index: nat)     // owns [pos, pos + actual_len)
    | TryClaim(room: nat)                                             // top of the loop in dequeue
    | ReadClaimed(room: nat, pos: nat)                                // m_pre_dequeue_pos read
    | ReadingHeader(room: nat, pos: nat, got: map<nat, byte>)         // not empty, header partly read
    | Copying(pos: nat, len: nat, todo: set<nat>, out: map<nat, byte>, index: nat)
    | Dropping(pos: nat, len: nat, index: nat)                        // claimed, but malloc failed

  datatype Action =
    | StartEnqueue(msg: Message) | ReadPreEnqueue | ReadDequeue | Reserve | WriteByte(o: nat) | Publish
    | StartDequeue(room: nat) | ReadPreDequeue | ReadEnqueue | ReadHeaderByte(o: nat) | Claim(noMemory: bool)
    | CopyByte(o: nat) | Release

  /** The buffer and the four cursors; then history that no guard looks at. */
  datatype Shared = Shared(
    mem: seq<byte>, preEnqueue: nat, enqueue: nat, preDequeue: nat, dequeue: nat,
    log: seq<Reservation>, published: nat, claims: seq<nat>, outs: seq<Outcome>)

  datatype Sys = Sys(sh: Shared, threads: seq<PC>)

  /** The offsets 0, 1, ..., n - 1. */
  function Below(n: nat): (s: set<nat>)
    ensures |s| == n && forall o: nat :: o in s <==> o < n
  {
    if n == 0 then {} else Below(n - 1) + {n - 1}
  }

  /** m_queue_size - (enqueue_pos - dequeue_pos), on uint64_t. */
  function FreeSpace(size: nat, pos: nat, seen: nat): nat {
    (size - (pos - seen) % UINT64) % UINT64
  }

  predicate LooksFull(size: nat, msg: Message, pos: nat, seen: nat) {
    ActualLen(|msg|) > FreeSpace(size, pos, seen)
  }

  function HeaderLen(got: map<nat, byte>): (n: nat)
    requires got.Keys == Below(4)
    ensures n < UINT32
  {
    FromLe32([got[0], got[1], got[2], got[3]])
  }

  function Assemble(out: map<nat, byte>, len: nat): (data: seq<byte>)
    requires Below(len) <= out.Keys
    ensures |data| == len && forall i :: 0 <= i < len ==> data[i] == out[i]
  {
    seq(len, i requires 0 <= i < len => out[i])
  }

  predicate Enabled(s: Sys, t: nat, a: Action) {
    t < |s.threads| && |s.sh.mem| > 0 && EnabledAt(s.sh, s.threads[t], a)
  }

  predicate EnabledAt(sh: Shared, pc: PC, a: Action)
    requires |sh.mem| > 0
  {
    match a
    case StartEnqueue(msg) => pc.Idle? && ValidMessage(msg)
    case ReadPreEnqueue => pc.TryReserve?
    case ReadDequeue => pc.ReadReserved?
    case Reserve => pc.Reserving? && sh.preEnqueue + ActualLen(|pc.msg|) < CURSOR_LIMIT
    case WriteByte(o) => pc.Filling? && o in pc.todo && ValidMessage(pc.msg) && o < HEADER + |pc.msg|
    case Publish => pc.Filling? && pc.todo == {}
    case StartDequeue(room) => pc.Idle?
    case ReadPreDequeue => pc.TryClaim?
    case ReadEnqueue => pc.ReadClaimed?
    case ReadHeaderByte(o) => pc.ReadingHeader? && o < 4 && Slot(pc.pos, |sh.mem|) + o < |sh.mem|
    case Claim(noMemory) =>
      pc.ReadingHeader? && pc.got.Keys == Below(4) && (noMemory ==> pc.room < HeaderLen(pc.got))
    case CopyByte(o) => pc.Copying? && o in pc.todo
    case Release => pc.Dropping? || (pc.Copying? && pc.todo == {} && Below(pc.len) <= pc.out.Keys)
  }

  /** What dequeue hands back when a thread standing at `pc` returns. */
  function OutcomeOf(pc: PC): (r: Outcome)
    requires pc.Dropping? || (pc.Copying? && Below(pc.len) <= pc.out.Keys)
  {
    if pc.Copying? then Got(Assemble(pc.out, pc.len)) else Lost(pc.len)
  }

  /** Byte o of the record of msg is stored at its place. */
  function Stored(mem: seq<byte>, pos: nat, msg: Message, o: nat): (mem': seq<byte>)
    requires |mem| > 0 && ValidMessage(msg) && o < HEADER + |msg|
    ensures |mem'| == |mem|
  {
    mem[Slot(pos + o, |mem|) := Record(msg)[o]]
  }

  /** The claiming swap by t that succeeds. */
  function AfterClaim(sh: Shared, t: nat, pc: PC): Shared
    requires pc.ReadingHeader? && pc.got.Keys == Below(4)
  {
    sh.(preDequeue := pc.pos + ActualLen32(HeaderLen(pc.got)), claims := sh.claims + [t])
  }

  /** The releasing swap that succeeds. */
  function AfterRelease(sh: Shared, pc: PC): Shared
    requires pc.Dropping? || (pc.Copying? && Below(pc.len) <= pc.out.Keys)
  {
    sh.(dequeue := pc.pos + ActualLen32(pc.len), outs := sh.outs + [OutcomeOf(pc)])
  }

  /** What one atomic step of a thread standing at `pc` does to the shared state. */
  function NextShared(sh: Shared, t: nat, pc: PC, a: Action): (sh': Shared)
    requires |sh.mem| > 0 && EnabledAt(sh, pc, a)
  {
    match a
    case Reserve =>
      if sh.preEnqueue != pc.pos then sh
      else sh.(preEnqueue := pc.pos + ActualLen(|pc.msg|), log := sh.log + [Reservation(pc.pos, pc.msg, t)])
    case WriteByte(o) =>
      sh.(mem := Stored(sh.mem, pc.pos, pc.msg, o))
    case Publish =>
      if sh.enqueue != pc.pos then sh
      else sh.(enqueue := pc.pos + ActualLen(|pc.msg|), published := sh.published + 1)
    case Claim(noMemory) => if sh.preDequeue != pc.pos then sh else AfterClaim(sh, t, pc)
    case Release => if sh.dequeue != pc.pos then sh else AfterRelease(sh, pc)
    case _ => sh
  }

  /** Where the thread stands afterwards. A compare-and-swap that fails goes back to the top of its
      loop, or spins where it is. */
  function NextPC(sh: Shared, pc: PC, a: Action): (pc': PC)
    requires |sh.mem| > 0 && EnabledAt(sh, pc, a)
  {
    match a
    case StartEnqueue(msg) => TryReserve(msg)
    case ReadPreEnqueue => ReadReserved(pc.msg, sh.preEnqueue)
    case ReadDequeue =>
      if LooksFull(|sh.mem|, pc.msg, pc.pos, sh.dequeue) then Idle
      else Reserving(pc.msg, pc.pos, sh.dequeue)
    case Reserve =>
      if sh.preEnqueue != pc.pos then TryReserve(pc.msg)
      else Filling(pc.msg, pc.pos, Below(HEADER + |pc.msg|), |sh.log|)
    case WriteByte(o) => Filling(pc.msg, pc.pos, pc.todo - {o}, pc.index)
    case Publish => if sh.enqueue != pc.pos then pc else Idle
    case StartDequeue(room) => TryClaim(room)
    case ReadPreDequeue => ReadClaimed(pc.room, sh.preDequeue)
    case ReadEnqueue => if pc.pos == sh.enqueue then Idle else ReadingHeader(pc.room, pc.pos, map[])
    case ReadHeaderByte(o) =>
      ReadingHeader(pc.room, pc.pos, pc.got[o := sh.mem[Slot(pc.pos, |sh.mem|) + o]])
    case Claim(noMemory) =>
      var len := HeaderLen(pc.got);
      if sh.preDequeue != pc.pos then TryClaim(pc.room)
      else if noMemory then Dropping(pc.pos, len, |sh.claims|)
      else Copying(pc.pos, len, Below(len), map[], |sh.claims|)
    case CopyByte(o) =>
      Copying(pc.pos, pc.len, pc.todo - {o}, pc.out[o := sh.mem[Slot(pc.pos + HEADER + o, |sh.mem|)]], pc.index)
    case Release => if sh.dequeue != pc.pos then pc else Idle
  }

  function Do(s: Sys, t: nat, a: Action): (s': Sys)
    requires Enabled(s, t, a)
  {
    var pc := s.threads[t];
    Sys(NextShared(s.sh, t, pc, a), s.threads[t := NextPC(s.sh, pc, a)])
  }

  // ------------------------------------------------------------------------------------------------
  // The invariant
  // ------------------------------------------------------------------------------------------------

  /** What queue_t::init leaves behind: cursors at zero, any bytes in the buffer. */
  ghost predicate Init(s: Sys) {
    QueueSize(|s.sh.mem|) && s.sh == Shared(s.sh.mem, 0, 0, 0, 0, [], 0, [], []) &&
    forall t | 0 <= t < |s.threads| :: s.threads[t].Idle?
  }

  function End(r: Reservation): nat {
    r.pos + ActualLen(|r.msg|)
  }

  /** Where the k-th record starts, or will start. */
  function PosOf(sh: Shared, k: nat): nat {
    if k < |sh.log| then sh.log[k].pos else sh.preEnqueue
  }

  /** D <= Q <= E <= P <= D + size, each cursor on a record boundary. */
  ghost predicate CursorsOk(sh: Shared) {
    QueueSize(|sh.mem|) &&
    |sh.outs| <= |sh.claims| <= sh.published <= |sh.log| &&
    sh.dequeue == PosOf(sh, |sh.outs|) && sh.preDequeue == PosOf(sh, |sh.claims|) &&
    sh.enqueue == PosOf(sh, sh.published) &&
    sh.dequeue <= sh.preDequeue <= sh.enqueue <= sh.preEnqueue <= sh.dequeue + |sh.mem| &&
    sh.preEnqueue < CURSOR_LIMIT && sh.preEnqueue % 8 == 0
  }

  ghost predicate Adjacent(sh: Shared, k: nat) {
    k < |sh.log| && End(sh.log[k]) == PosOf(sh, k + 1)
  }

  /** Records lie one behind the other. */
  ghost predicate LogOk(sh: Shared) {
    (forall k | 0 <= k < |sh.log| ::
      ValidMessage(sh.log[k].msg) && sh.log[k].pos % 8 == 0 && End(sh.log[k]) <= sh.preEnqueue) &&
    (forall k | 0 <= k < |sh.log| :: Adjacent(sh, k)) &&
    (forall i, j | 0 <= i < j < |sh.log| :: End(sh.log[i]) <= sh.log[j].pos)
  }

  ghost predicate RecordLies(mem: seq<byte>, r: Reservation) {
    |mem| > 0 && ValidMessage(r.msg) && Holds(mem, r.pos, Record(r.msg))
  }

  /** Every published record that has not been released lies intact in the buffer. */
  ghost predicate DataOk(sh: Shared) {
    forall k | 0 <= |sh.outs| <= k < sh.published :: k < |sh.log| && RecordLies(sh.mem, sh.log[k])
  }

  /** What the k-th return of dequeue hands back. */
  ghost predicate Delivers(out: Outcome, msg: Message) {
    match out
    case Got(data) => data == msg
    case Lost(len) => len == |msg|
  }

  ghost predicate OutsOk(sh: Shared) {
    |sh.outs| <= |sh.log| && forall k | 0 <= k < |sh.outs| :: Delivers(sh.outs[k], sh.log[k].msg)
  }

  ghost predicate SharedOk(sh: Shared) {
    CursorsOk(sh) && LogOk(sh) && DataOk(sh) && OutsOk(sh)
  }

  /** Every reservation not yet published is being filled by the thread that made it. */
  ghost predicate ProducersOk(s: Sys) {
    forall k | s.sh.published <= k < |s.sh.log| :: MadeBy(s.threads, s.sh.log[k].maker, k)
  }

  ghost predicate MadeBy(threads: seq<PC>, t: nat, k: nat) {
    t < |threads| && threads[t].Filling? && threads[t].index == k
  }

  /** Every claim not yet released is held by the thread that made it. */
  ghost predicate ConsumersOk(s: Sys) {
    forall k | |s.sh.outs| <= k < |s.sh.claims| :: TakenBy(s.threads, s.sh.claims[k], k)
  }

  ghost predicate TakenBy(threads: seq<PC>, t: nat, k: nat) {
    t < |threads| && (threads[t].Copying? || threads[t].Dropping?) && threads[t].index == k
  }

  /** The record of which only the offsets in todo may still be missing. */
  ghost predicate PartlyWritten(mem: seq<byte>, msg: Message, pos: nat, todo: set<nat>) {
    |mem| > 0 && ValidMessage(msg) &&
    forall o | 0 <= o < HEADER + |msg| && o !in todo :: mem[Slot(pos + o, |mem|)] == Record(msg)[o]
  }

  ghost predicate FillingOk(sh: Shared, t: nat, pc: PC)
    requires pc.Filling?
  {
    sh.published <= pc.index < |sh.log| && sh.log[pc.index] == Reservation(pc.pos, pc.msg, t) &&
    pc.todo <= Below(HEADER + |pc.msg|) && PartlyWritten(sh.mem, pc.msg, pc.pos, pc.todo)
  }

  /** The header bytes read so far are those of msg. */
  ghost predicate HeaderSeen(got: map<nat, byte>, msg: Message) {
    got.Keys <= Below(4) && ValidMessage(msg) && forall o | o in got :: got[o] == Header(|msg|)[o]
  }

  /** A header read through a position that is still current is the header of the next record;
      through a stale one it may be anything. */
  ghost predicate ReadingOk(sh: Shared, pos: nat, got: map<nat, byte>) {
    pos % 8 == 0 && pos <= sh.preDequeue && got.Keys <= Below(4) &&
    (pos == sh.preDequeue ==>
      |sh.claims| < sh.published <= |sh.log| && HeaderSeen(got, sh.log[|sh.claims|].msg))
  }

  ghost predicate TakingOk(sh: Shared, t: nat, pos: nat, len: nat, k: nat) {
    |sh.outs| <= k < |sh.claims| <= |sh.log| && sh.claims[k] == t && sh.log[k].pos == pos && len == |sh.log[k].msg|
  }

  ghost predicate CopiedOk(msg: Message, todo: set<nat>, out: map<nat, byte>) {
    todo <= Below(|msg|) && out.Keys == Below(|msg|) - todo && forall o | o in out :: out[o] == msg[o]
  }

  ghost predicate ThreadOk(sh: Shared, t: nat, pc: PC) {
    match pc
    case Idle => true
    case TryReserve(msg) => ValidMessage(msg)
    case ReadReserved(msg, pos) => ValidMessage(msg) && pos <= sh.preEnqueue
    case Reserving(msg, pos, seen) =>
      ValidMessage(msg) && pos <= sh.preEnqueue && seen <= sh.dequeue && pos + ActualLen(|msg|) <= seen + |sh.mem|
    case Filling(msg, pos, todo, k) => FillingOk(sh, t, pc)
    case TryClaim(room) => true
    case ReadClaimed(room, pos) => pos % 8 == 0 && pos <= sh.preDequeue
    case ReadingHeader(room, pos, got) => ReadingOk(sh, pos, got)
    case Copying(pos, len, todo, out, k) => TakingOk(sh, t, pos, len, k) && CopiedOk(sh.log[k].msg, todo, out)
    case Dropping(pos, len, k) => TakingOk(sh, t, pos, len, k)
  }

  ghost predicate ThreadsOk(s: Sys) {
    forall t | 0 <= t < |s.threads| :: ThreadOk(s.sh, t, s.threads[t])
  }

  ghost predicate Inv(s: Sys) {
    SharedOk(s.sh) && ProducersOk(s) && ConsumersOk(s) && ThreadsOk(s)
  }

  lemma ThreadOf(s: Sys, t: nat)
    requires ThreadsOk(s) && t < |s.threads|
    ensures ThreadOk(s.sh, t, s.threads[t])
  {
  }

  lemma InitInv(s: Sys)
    requires Init(s)
    ensures Inv(s)
  {
  }

  // ------------------------------------------------------------------------------------------------
  // Every step keeps it
  // ------------------------------------------------------------------------------------------------

  predicate Owns(pc: PC) {
    pc.Filling? || pc.Copying? || pc.Dropping?
  }

  /** A step that moves one thread between states that own nothing, and touches nothing shared. */
  lemma LocalStepInv(s: Sys, t: nat, pc: PC)
    requires Inv(s) && t < |s.threads| && !Owns(s.threads[t]) && !Owns(pc)
    requires ThreadOk(s.sh, t, pc)
    ensures Inv(s.(threads := s.threads[t := pc]))
  {
    var s' := s.(threads := s.threads[t := pc]);
    assert ProducersOk(s') by {
      forall k | s'.sh.published <= k < |s'.sh.log| ensures MadeBy(s'.threads, s'.sh.log[k].maker, k) {
        assert MadeBy(s.threads, s.sh.log[k].maker, k);
      }
    }
    assert ConsumersOk(s') by {
      forall k | |s'.sh.outs| <= k < |s'.sh.claims| ensures TakenBy(s'.threads, s'.sh.claims[k], k) {
        assert TakenBy(s.threads, s.sh.claims[k], k);
      }
    }
  }

  /** How the shared state may change under a thread that is not moving. */
  ghost predicate Extends(sh: Shared, sh': Shared) {
    |sh'.mem| == |sh.mem| &&
    sh.preEnqueue <= sh'.preEnqueue && sh.preDequeue <= sh'.preDequeue && sh.dequeue <= sh'.dequeue &&
    sh.log <= sh'.log && sh.claims <= sh'.claims && sh.published <= sh'.published <= |sh'.log| &&
    |sh'.claims| <= |sh'.log| &&
    (sh'.preDequeue == sh.preDequeue ==> sh'.claims == sh.claims)
  }

  lemma FillingFrame(sh: Shared, sh': Shared, t: nat, pc: PC)
    requires pc.Filling? && FillingOk(sh, t, pc) && Extends(sh, sh')
    requires sh'.published <= pc.index && PartlyWritten(sh'.mem, pc.msg, pc.pos, pc.todo)
    ensures FillingOk(sh', t, pc)
  {
    assert sh'.log[pc.index] == sh.log[pc.index];
  }

  lemma ReadingFrame(sh: Shared, sh': Shared, pos: nat, got: map<nat, byte>)
    requires ReadingOk(sh, pos, got) && Extends(sh, sh')
    ensures ReadingOk(sh', pos, got)
  {
    if pos == sh'.preDequeue {
      assert sh'.log[|sh.claims|] == sh.log[|sh.claims|];
    }
  }

  lemma TakingFrame(sh: Shared, sh': Shared, t: nat, pos: nat, len: nat, k: nat)
    requires TakingOk(sh, t, pos, len, k) && Extends(sh, sh') && |sh'.outs| <= k
    ensures TakingOk(sh', t, pos, len, k) && sh'.log[k] == sh.log[k]
  {
    assert sh'.claims[k] == sh.claims[k] && sh'.log[k] == sh.log[k];
  }

  /** What a thread knows survives every change that respects what it owns. */
  lemma ThreadFrame(sh: Shared, sh': Shared, t: nat, pc: PC)
    requires ThreadOk(sh, t, pc) && Extends(sh, sh')
    requires pc.Filling? ==> sh'.published <= pc.index && PartlyWritten(sh'.mem, pc.msg, pc.pos, pc.todo)
    requires pc.Copying? || pc.Dropping? ==> |sh'.outs| <= pc.index
    ensures ThreadOk(sh', t, pc)
  {
    match pc
    case Filling(_, _, _, _) => FillingFrame(sh, sh', t, pc);
    case ReadingHeader(_, pos, got) => ReadingFrame(sh, sh', pos, got);
    case Copying(pos, len, _, _, k) => TakingFrame(sh, sh', t, pos, len, k);
    case Dropping(pos, len, k) => TakingFrame(sh, sh', t, pos, len, k);
    case _ =>
  }

  /** The full test never errs: whatever stale values it compares, unsigned wrap-around included, the
      free space it computes is the exact difference. */
  lemma FreeSpaceExact(sh: Shared, pos: nat)
    requires CursorsOk(sh) && pos <= sh.preEnqueue
    ensures FreeSpace(|sh.mem|, pos, sh.dequeue) == |sh.mem| + sh.dequeue - pos
  {
    var free := |sh.mem| + sh.dequeue - pos;
    assert 0 <= free < UINT64;
    if pos < sh.dequeue {
      assert (pos - sh.dequeue) % UINT64 == pos - sh.dequeue + UINT64;
    }
  }

  /** Nothing that the thread at pc owns is touched on the way to sh'. */
  ghost predicate Undisturbed(sh': Shared, pc: PC) {
    (pc.Filling? ==> sh'.published <= pc.index && PartlyWritten(sh'.mem, pc.msg, pc.pos, pc.todo)) &&
    (pc.Copying? || pc.Dropping? ==> |sh'.outs| <= pc.index)
  }

  lemma SameMemUndisturbed(sh: Shared, sh': Shared, u: nat, qc: PC)
    requires ThreadOk(sh, u, qc)
    requires sh'.mem == sh.mem && sh'.published == sh.published && sh'.outs == sh.outs
    ensures Undisturbed(sh', qc)
  {
    hide PartlyWritten, ReadingOk;
  }

  lemma ShiftThreads(s: Sys, s': Sys, t: nat)
    requires ThreadsOk(s) && Extends(s.sh, s'.sh)
    requires t < |s.threads| == |s'.threads| && s'.threads == s.threads[t := s'.threads[t]]
    requires ThreadOk(s'.sh, t, s'.threads[t])
    requires forall u | 0 <= u < |s.threads| && u != t :: Undisturbed(s'.sh, s.threads[u])
    ensures ThreadsOk(s')
  {
    hide PartlyWritten, ThreadOk, Extends;
    forall u | 0 <= u < |s'.threads| ensures ThreadOk(s'.sh, u, s'.threads[u]) {
      assert ThreadOk(s.sh, u, s.threads[u]);
      if u != t {
        assert Undisturbed(s'.sh, s.threads[u]);
        ThreadFrame(s.sh, s'.sh, u, s.threads[u]);
      }
    }
  }

  lemma ShiftOwners(s: Sys, s': Sys, t: nat)
    requires ProducersOk(s) && ConsumersOk(s) && Extends(s.sh, s'.sh) && |s.sh.outs| <= |s'.sh.outs|
    requires t < |s.threads| == |s'.threads| && s'.threads == s.threads[t := s'.threads[t]]
    requires forall k | s'.sh.published <= k < |s'.sh.log| ::
      (k >= |s.sh.log| ==> s'.sh.log[k].maker == t) && (s'.sh.log[k].maker == t ==> MadeBy(s'.threads, t, k))
    requires forall k | |s'.sh.outs| <= k < |s'.sh.claims| ::
      (k >= |s.sh.claims| ==> s'.sh.claims[k] == t) && (s'.sh.claims[k] == t ==> TakenBy(s'.threads, t, k))
    ensures ProducersOk(s') && ConsumersOk(s')
  {
    forall k | s'.sh.published <= k < |s'.sh.log| ensures MadeBy(s'.threads, s'.sh.log[k].maker, k) {
      if s'.sh.log[k].maker != t {
        assert MadeBy(s.threads, s.sh.log[k].maker, k);
      }
    }
    forall k | |s'.sh.outs| <= k < |s'.sh.claims| ensures TakenBy(s'.threads, s'.sh.claims[k], k) {
      if s'.sh.claims[k] != t {
        assert TakenBy(s.threads, s.sh.claims[k], k);
      }
    }
  }

  /** While t owns no claim before or after, only the filled records matter. */
  lemma NotTaken(s: Sys, t: nat)
    requires Inv(s) && t < |s.threads| && !s.threads[t].Copying? && !s.threads[t].Dropping?
    ensures forall k | |s.sh.outs| <= k < |s.sh.claims| :: s.sh.claims[k] != t
  {
    forall k | |s.sh.outs| <= k < |s.sh.claims| ensures s.sh.claims[k] != t {
      assert TakenBy(s.threads, s.sh.claims[k], k);
    }
  }

  lemma MadeIndex(s: Sys, t: nat)
    requires Inv(s) && t < |s.threads|
    ensures forall k | s.sh.published <= k < |s.sh.log| && s.sh.log[k].maker == t :: MadeBy(s.threads, t, k)
  {
  }

  lemma TakenIndex(s: Sys, t: nat)
    requires Inv(s) && t < |s.threads|
    ensures forall k | |s.sh.outs| <= k < |s.sh.claims| && s.sh.claims[k] == t :: TakenBy(s.threads, t, k)
  {
  }

  // Reserve

  lemma SameOuts(sh: Shared, sh': Shared)
    requires OutsOk(sh) && sh.log <= sh'.log && sh'.outs == sh.outs
    ensures OutsOk(sh')
  {
  }

  lemma SameLog(sh: Shared, sh': Shared)
    requires LogOk(sh) && sh'.log == sh.log && sh'.preEnqueue == sh.preEnqueue
    ensures LogOk(sh')
    ensures forall k | 0 <= k <= |sh.log| :: PosOf(sh', k) == PosOf(sh, k)
  {
    forall k | 0 <= k < |sh'.log| ensures Adjacent(sh', k) {
      assert Adjacent(sh, k);
    }
  }

  lemma RecordEnds(sh: Shared, k: nat)
    requires LogOk(sh) && k < |sh.log|
    ensures ValidMessage(sh.log[k].msg) && PosOf(sh, k) == sh.log[k].pos && End(sh.log[k]) == PosOf(sh, k + 1)
  {
    assert Adjacent(sh, k);
  }

  lemma PosGrows(sh: Shared, i: nat, j: nat)
    requires LogOk(sh) && i <= j <= |sh.log|
    ensures PosOf(sh, i) <= PosOf(sh, j)
  {
    if i < j < |sh.log| {
      assert End(sh.log[i]) <= sh.log[j].pos;
    }
  }

  lemma SameData(sh: Shared, sh': Shared)
    requires DataOk(sh) && sh.log <= sh'.log && sh'.mem == sh.mem
    requires |sh.outs| <= |sh'.outs| && sh'.published == sh.published
    ensures DataOk(sh')
  {
    hide RecordLies;
  }

  lemma ReserveShared(sh: Shared, t: nat, pos: nat, msg: Message)
    requires SharedOk(sh) && ValidMessage(msg) && pos == sh.preEnqueue
    requires pos + ActualLen(|msg|) <= sh.dequeue + |sh.mem| && pos + ActualLen(|msg|) < CURSOR_LIMIT
    ensures var sh' := sh.(preEnqueue := pos + ActualLen(|msg|), log := sh.log + [Reservation(pos, msg, t)]);
      SharedOk(sh') && Extends(sh, sh')
  {
    hide DataOk, OutsOk, LogOk, QueueSize;
    var sh' := sh.(preEnqueue := pos + ActualLen(|msg|), log := sh.log + [Reservation(pos, msg, t)]);
    SameOuts(sh, sh');
    SameData(sh, sh');
    ReserveLog(sh, sh', t, pos, msg);
  }

  /** The new record lies behind all others. */
  lemma ReserveLog(sh: Shared, sh': Shared, t: nat, pos: nat, msg: Message)
    requires LogOk(sh) && ValidMessage(msg) && pos == sh.preEnqueue && pos % 8 == 0
    requires sh'.log == sh.log + [Reservation(pos, msg, t)] && sh'.preEnqueue == pos + ActualLen(|msg|)
    ensures LogOk(sh') && forall k | 0 <= k <= |sh.log| :: PosOf(sh', k) == PosOf(sh, k)
  {
    hide ActualLen;
    assert forall k | 0 <= k < |sh.log| :: sh'.log[k] == sh.log[k];
    forall k | 0 <= k < |sh'.log| ensures Adjacent(sh', k) {
      assert k < |sh.log| ==> Adjacent(sh, k);
    }
  }

  lemma ReserveInv(s: Sys, t: nat)
    requires Inv(s) && Enabled(s, t, Reserve)
    ensures Inv(Do(s, t, Reserve))
  {
    hide Slot, Record, ThreadsOk, PartlyWritten, Undisturbed, SharedOk, ProducersOk, ConsumersOk, Extends;
    var sh, pc := s.sh, s.threads[t];
    assert ThreadOk(sh, t, pc) by { ThreadOf(s, t); }
    if sh.preEnqueue != pc.pos {
      LocalStepInv(s, t, TryReserve(pc.msg));
    } else {
      var s' := Do(s, t, Reserve);
      ReserveShared(sh, t, pc.pos, pc.msg);
      ReserveOwn(s, s', t);
      MadeIndex(s, t);
      NotTaken(s, t);
      ShiftOwners(s, s', t);
      ShiftThreads(s, s', t);
    }
  }

  lemma ReserveOwn(s: Sys, s': Sys, t: nat)
    requires Inv(s) && Enabled(s, t, Reserve) && s.sh.preEnqueue == s.threads[t].pos && s' == Do(s, t, Reserve)
    requires Extends(s.sh, s'.sh)
    ensures ThreadOk(s'.sh, t, s'.threads[t])
    ensures forall u | 0 <= u < |s.threads| && u != t :: Undisturbed(s'.sh, s.threads[u])
  {
    hide Slot, Record, ThreadsOk, SharedOk, ProducersOk, ConsumersOk, ThreadOk, Undisturbed, Extends;
    assert ValidMessage(s.threads[t].msg) by {
      ThreadOf(s, t);
      ReservingValid(s.sh, t, s.threads[t]);
    }
    assert PosOf(s.sh, s.sh.published) <= s.sh.preEnqueue && s.sh.published <= |s.sh.log| by { PublishedBounds(s.sh); }
    NothingWrittenYet(s'.sh, t, s'.threads[t]);
    forall u | 0 <= u < |s.threads| && u != t ensures Undisturbed(s'.sh, s.threads[u]) {
      ThreadOf(s, u);
      SameMemUndisturbed(s.sh, s'.sh, u, s.threads[u]);
    }
  }

  lemma ReservingValid(sh: Shared, t: nat, pc: PC)
    requires pc.Reserving? && ThreadOk(sh, t, pc)
    ensures ValidMessage(pc.msg)
  {
  }

  lemma PublishedBounds(sh: Shared)
    requires SharedOk(sh)
    ensures |sh.outs| <= sh.published <= |sh.log| && PosOf(sh, sh.published) <= sh.preEnqueue
  {
  }

  lemma NothingWrittenYet(sh: Shared, t: nat, pc: PC)
    requires pc.Filling? && |sh.mem| > 0 && ValidMessage(pc.msg) && pc.todo == Below(HEADER + |pc.msg|)
    requires sh.published <= pc.index < |sh.log| && sh.log[pc.index] == Reservation(pc.pos, pc.msg, t)
    ensures ThreadOk(sh, t, pc)
  {
    hide Slot, Record;
  }

  // WriteByte

  /** No two live records share a slot: reserved regions are disjoint modulo the size. */
  lemma RegionsDisjoint(sh: Shared, j: nat, oj: nat, k: nat, ok: nat)
    requires CursorsOk(sh) && LogOk(sh)
    requires |sh.outs| <= j < |sh.log| && |sh.outs| <= k < |sh.log| && j != k
    requires oj < ActualLen(|sh.log[j].msg|) && ok < ActualLen(|sh.log[k].msg|)
    ensures Slot(sh.log[j].pos + oj, |sh.mem|) != Slot(sh.log[k].pos + ok, |sh.mem|)
  {
    var a, b := sh.log[j].pos + oj, sh.log[k].pos + ok;
    LiveAboveDequeue(sh, j);
    LiveAboveDequeue(sh, k);
    assert a != b by {
      if j < k {
        assert End(sh.log[j]) <= sh.log[k].pos;
      } else {
        assert End(sh.log[k]) <= sh.log[j].pos;
      }
    }
    SlotsDiffer(a, b, |sh.mem|);
  }

  lemma LiveAboveDequeue(sh: Shared, k: nat)
    requires CursorsOk(sh) && LogOk(sh) && |sh.outs| <= k < |sh.log|
    ensures sh.dequeue <= sh.log[k].pos && End(sh.log[k]) <= sh.dequeue + |sh.mem|
  {
    if |sh.outs| < k {
      assert End(sh.log[|sh.outs|]) <= sh.log[k].pos;
    }
  }

  /** A store into record k leaves every byte of record j alone. */
  lemma StoreElsewhere(sh: Shared, k: nat, o: nat, b: byte, j: nat, oj: nat)
    requires CursorsOk(sh) && LogOk(sh)
    requires |sh.outs| <= k < |sh.log| && o < HEADER + |sh.log[k].msg|
    requires |sh.outs| <= j < |sh.log| && oj < HEADER + |sh.log[j].msg| && j != k
    ensures sh.mem[Slot(sh.log[k].pos + o, |sh.mem|) := b][Slot(sh.log[j].pos + oj, |sh.mem|)]
         == sh.mem[Slot(sh.log[j].pos + oj, |sh.mem|)]
  {
    RegionsDisjoint(sh, j, oj, k, o);
  }

  lemma WriteShared(sh: Shared, t: nat, pc: PC, o: nat)
    requires SharedOk(sh) && pc.Filling? && FillingOk(sh, t, pc) && o in pc.todo
    ensures var sh' := sh.(mem := sh.mem[Slot(pc.pos + o, |sh.mem|) := Record(pc.msg)[o]]);
      SharedOk(sh') && Extends(sh, sh')
  {
    hide Record, Slot, DataOk, LogOk, OutsOk, QueueSize;
    var b := Record(pc.msg)[o];
    var sh' := sh.(mem := sh.mem[Slot(pc.pos + o, |sh.mem|) := b]);
    WriteData(sh, t, pc, o);
    SameLog(sh, sh');
    SameOuts(sh, sh');
  }

  /** A byte stored by one producer is none of a published record. */
  lemma WriteData(sh: Shared, t: nat, pc: PC, o: nat)
    requires SharedOk(sh) && pc.Filling? && FillingOk(sh, t, pc) && o in pc.todo
    ensures DataOk(sh.(mem := sh.mem[Slot(pc.pos + o, |sh.mem|) := Record(pc.msg)[o]]))
  {
    hide Record, Slot, CursorsOk, LogOk, OutsOk;
    PublishedBounds(sh);
    var b := Record(pc.msg)[o];
    var sh' := sh.(mem := sh.mem[Slot(pc.pos + o, |sh.mem|) := b]);
    forall k | |sh.outs| <= k < sh.published ensures RecordLies(sh'.mem, sh.log[k]) {
      var r := sh.log[k];
      assert RecordLies(sh.mem, r);
      forall oj | 0 <= oj < |Record(r.msg)|
        ensures sh'.mem[Slot(r.pos + oj, |sh.mem|)] == Record(r.msg)[oj]
      {
        StoreElsewhere(sh, pc.index, o, b, k, oj);
      }
    }
  }

  lemma WriteOthers(sh: Shared, t: nat, pc: PC, o: nat, u: nat, qc: PC)
    requires SharedOk(sh) && pc.Filling? && FillingOk(sh, t, pc) && o in pc.todo
    requires qc.Filling? && FillingOk(sh, u, qc) && u != t
    ensures PartlyWritten(sh.mem[Slot(pc.pos + o, |sh.mem|) := Record(pc.msg)[o]], qc.msg, qc.pos, qc.todo)
  {
    hide Slot, Record, CursorsOk, LogOk, DataOk, OutsOk;
    PublishedBounds(sh);
    var mem' := sh.mem[Slot(pc.pos + o, |sh.mem|) := Record(pc.msg)[o]];
    assert pc.index != qc.index;
    forall oj | 0 <= oj < HEADER + |qc.msg| && oj !in qc.todo
      ensures mem'[Slot(qc.pos + oj, |mem'|)] == Record(qc.msg)[oj]
    {
      StoreElsewhere(sh, pc.index, o, Record(pc.msg)[o], qc.index, oj);
    }
  }

  lemma WriteOwn(sh: Shared, t: nat, pc: PC, o: nat)
    requires SharedOk(sh) && pc.Filling? && FillingOk(sh, t, pc) && o in pc.todo
    ensures var mem' := sh.mem[Slot(pc.pos + o, |sh.mem|) := Record(pc.msg)[o]];
      PartlyWritten(mem', pc.msg, pc.pos, pc.todo - {o})
  {
    hide Record, DataOk, OutsOk, QueueSize, PartlyWritten, Slot;
    LiveAboveDequeue(sh, pc.index);
    OneByteLess(sh.mem, pc.msg, pc.pos, pc.todo, o);
  }

  lemma OneByteLess(mem: seq<byte>, msg: Message, pos: nat, todo: set<nat>, o: nat)
    requires PartlyWritten(mem, msg, pos, todo) && o < HEADER + |msg| <= |mem|
    ensures PartlyWritten(mem[Slot(pos + o, |mem|) := Record(msg)[o]], msg, pos, todo - {o})
  {
    hide Record, Slot;
    var mem' := mem[Slot(pos + o, |mem|) := Record(msg)[o]];
    forall oj | 0 <= oj < HEADER + |msg| && oj !in todo - {o}
      ensures mem'[Slot(pos + oj, |mem'|)] == Record(msg)[oj]
    {
      if oj != o {
        SlotsDiffer(pos + o, pos + oj, |mem|);
      }
    }
  }

  lemma WriteOther(sh: Shared, sh': Shared, t: nat, pc: PC, o: nat, u: nat, qc: PC)
    requires SharedOk(sh) && pc.Filling? && FillingOk(sh, t, pc) && o in pc.todo && ThreadOk(sh, u, qc) && u != t
    requires sh' == sh.(mem := sh.mem[Slot(pc.pos + o, |sh.mem|) := Record(pc.msg)[o]])
    ensures Undisturbed(sh', qc)
  {
    hide PartlyWritten, ReadingOk, Record, Slot, CursorsOk, LogOk, DataOk, OutsOk;
    if qc.Filling? {
      WriteOthers(sh, t, pc, o, u, qc);
    }
  }

  lemma WriteUndisturbed(s: Sys, t: nat, o: nat)
    requires Inv(s) && Enabled(s, t, WriteByte(o))
    ensures var s' := Do(s, t, WriteByte(o));
      ThreadOk(s'.sh, t, s'.threads[t]) &&
      forall u | 0 <= u < |s.threads| && u != t :: Undisturbed(s'.sh, s.threads[u])
  {
    hide Slot, Record, PartlyWritten, ThreadsOk, Undisturbed, SharedOk, ProducersOk, ConsumersOk;
    var s' := Do(s, t, WriteByte(o));
    ThreadOf(s, t);
    WriteOwn(s.sh, t, s.threads[t], o);
    forall u | 0 <= u < |s.threads| && u != t ensures Undisturbed(s'.sh, s.threads[u]) {
      ThreadOf(s, u);
      WriteOther(s.sh, s'.sh, t, s.threads[t], o, u, s.threads[u]);
    }
  }

  lemma WriteInv(s: Sys, t: nat, o: nat)
    requires Inv(s) && Enabled(s, t, WriteByte(o))
    ensures Inv(Do(s, t, WriteByte(o)))
  {
    hide Slot, Record, ThreadsOk, PartlyWritten, Undisturbed, SharedOk, ProducersOk, ConsumersOk, Extends;
    assert ThreadOk(s.sh, t, s.threads[t]) by { ThreadOf(s, t); }
    WriteShared(s.sh, t, s.threads[t], o);
    WriteUndisturbed(s, t, o);
    MadeIndex(s, t);
    NotTaken(s, t);
    ShiftOwners(s, Do(s, t, WriteByte(o)), t);
    ShiftThreads(s, Do(s, t, WriteByte(o)), t);
  }

  // Publish

  lemma PositionsRise(sh: Shared, i: nat, j: nat)
    requires LogOk(sh) && i < j < |sh.log|
    ensures sh.log[i].pos < sh.log[j].pos
  {
    assert End(sh.log[i]) <= sh.log[j].pos;
  }

  lemma OrderedFrom(sh: Shared, i: nat, j: nat)
    requires LogOk(sh) && i <= j < |sh.log|
    ensures i < j ==> sh.log[i].pos < sh.log[j].pos
  {
    if i < j {
      PositionsRise(sh, i, j);
    }
  }

  lemma PublishShared(sh: Shared, t: nat, pc: PC)
    requires SharedOk(sh) && pc.Filling? && FillingOk(sh, t, pc) && pc.todo == {} && sh.enqueue == pc.pos
    ensures pc.index == sh.published
    ensures var sh' := sh.(enqueue := pc.pos + ActualLen(|pc.msg|), published := sh.published + 1);
      SharedOk(sh') && Extends(sh, sh')
  {
    hide Record, Slot, DataOk, OutsOk, LogOk, PartlyWritten, QueueSize;
    var sh' := sh.(enqueue := pc.pos + ActualLen(|pc.msg|), published := sh.published + 1);
    OrderedFrom(sh, sh.published, pc.index);
    PublishData(sh, sh', t, pc);
    SameLog(sh, sh');
    SameOuts(sh, sh');
    RecordEnds(sh, pc.index);
    PosGrows(sh, pc.index + 1, |sh.log|);
  }

  /** A record that is filled completely lies in the buffer. */
  lemma PublishData(sh: Shared, sh': Shared, t: nat, pc: PC)
    requires DataOk(sh) && pc.Filling? && FillingOk(sh, t, pc) && pc.todo == {} && pc.index == sh.published
    requires sh'.published == sh.published + 1 && sh'.mem == sh.mem && sh'.log == sh.log && sh'.outs == sh.outs
    ensures DataOk(sh')
  {
    hide Record, Slot;
    assert |Record(pc.msg)| == HEADER + |pc.msg|;
    assert RecordLies(sh.mem, sh.log[pc.index]);
  }

  lemma PublishOther(sh: Shared, sh': Shared, t: nat, pc: PC, u: nat, qc: PC)
    requires pc.Filling? && FillingOk(sh, t, pc) && pc.index == sh.published && ThreadOk(sh, u, qc) && u != t
    requires sh'.mem == sh.mem && sh'.published == sh.published + 1 && sh'.outs == sh.outs
    ensures Undisturbed(sh', qc)
  {
    hide PartlyWritten, ReadingOk;
  }

  lemma PublishUndisturbed(s: Sys, t: nat)
    requires Inv(s) && Enabled(s, t, Publish) && s.sh.enqueue == s.threads[t].pos
    ensures var s' := Do(s, t, Publish);
      forall u | 0 <= u < |s.threads| && u != t :: Undisturbed(s'.sh, s.threads[u])
  {
    hide Slot, Record, PartlyWritten, ThreadsOk, Undisturbed;
    var s' := Do(s, t, Publish);
    assert ThreadOk(s.sh, t, s.threads[t]) by { ThreadOf(s, t); }
    PublishShared(s.sh, t, s.threads[t]);
    forall u | 0 <= u < |s.threads| && u != t ensures Undisturbed(s'.sh, s.threads[u]) {
      ThreadOf(s, u);
      PublishOther(s.sh, s'.sh, t, s.threads[t], u, s.threads[u]);
    }
  }

  lemma PublishInv(s: Sys, t: nat)
    requires Inv(s) && Enabled(s, t, Publish)
    ensures Inv(Do(s, t, Publish))
  {
    hide Slot, Record, ThreadsOk, PartlyWritten, Undisturbed, SharedOk, ProducersOk, ConsumersOk, Extends;
    if s.sh.enqueue == s.threads[t].pos {
      assert ThreadOk(s.sh, t, s.threads[t]) by { ThreadOf(s, t); }
      PublishShared(s.sh, t, s.threads[t]);
      PublishUndisturbed(s, t);
      MadeIndex(s, t);
      NotTaken(s, t);
      ShiftOwners(s, Do(s, t, Publish), t);
      ShiftThreads(s, Do(s, t, Publish), t);
    } else {
      assert s.threads[t := s.threads[t]] == s.threads;
    }
  }

  // The steps that own nothing

  lemma QuietInv(s: Sys, t: nat, a: Action)
    requires Inv(s) && Enabled(s, t, a)
    requires a.StartEnqueue? || a.ReadPreEnqueue? || a.ReadDequeue? || a.StartDequeue? || a.ReadPreDequeue?
    ensures Inv(Do(s, t, a))
  {
    hide Slot, Record, ThreadsOk, PartlyWritten, ProducersOk, ConsumersOk, LogOk, DataOk, OutsOk, QueueSize;
    var pc := s.threads[t];
    ThreadOf(s, t);
    if a.ReadDequeue? {
      FreeSpaceExact(s.sh, pc.pos);
    }
    PreDequeueAligned(s.sh);
    LocalStepInv(s, t, NextPC(s.sh, pc, a));
  }

  lemma PreDequeueAligned(sh: Shared)
    requires SharedOk(sh)
    ensures sh.preDequeue % 8 == 0
  {
    hide DataOk, OutsOk, Slot, QueueSize;
  }

  /** At the moment m_enqueue_pos is read and found different from a position that is still current,
      a published record waits there. */
  lemma CurrentPositionWaits(sh: Shared, pos: nat)
    requires SharedOk(sh) && pos == sh.preDequeue && pos != sh.enqueue
    ensures |sh.claims| < sh.published <= |sh.log| && ValidMessage(sh.log[|sh.claims|].msg)
  {
    hide DataOk, OutsOk, Slot, QueueSize;
  }

  lemma ReadEnqueueInv(s: Sys, t: nat)
    requires Inv(s) && Enabled(s, t, ReadEnqueue)
    ensures Inv(Do(s, t, ReadEnqueue))
  {
    hide Slot, Record, ThreadsOk, SharedOk, ProducersOk, ConsumersOk;
    var pc := s.threads[t];
    ThreadOf(s, t);
    if pc.pos == s.sh.preDequeue && pc.pos != s.sh.enqueue {
      CurrentPositionWaits(s.sh, pc.pos);
    }
    LocalStepInv(s, t, NextPC(s.sh, pc, ReadEnqueue));
  }

  /** A header byte read through a current position is the byte the producer put there. */
  lemma HeaderByte(sh: Shared, pos: nat, o: nat)
    requires SharedOk(sh) && pos == sh.preDequeue && pos % 8 == 0 && o < 4
    requires |sh.claims| < sh.published
    ensures ValidMessage(sh.log[|sh.claims|].msg)
    ensures Slot(pos, |sh.mem|) + o < |sh.mem|
    ensures sh.mem[Slot(pos, |sh.mem|) + o] == Header(|sh.log[|sh.claims|].msg|)[o]
  {
    hide OutsOk, Header, Slot, QueueSize, LogOk;
    RecordEnds(sh, |sh.claims|);
    var r := sh.log[|sh.claims|];
    assert RecordLies(sh.mem, r);
    AlignedSlot(pos, |sh.mem|);
    SlotUnwrapped(pos, o, |sh.mem|);
    assert Record(r.msg)[o] == Header(|r.msg|)[o];
  }

  lemma ReadHeaderInv(s: Sys, t: nat, o: nat)
    requires Inv(s) && Enabled(s, t, ReadHeaderByte(o))
    ensures Inv(Do(s, t, ReadHeaderByte(o)))
  {
    hide Slot, Record, Header, ThreadsOk, SharedOk, ProducersOk, ConsumersOk, ThreadOk;
    ThreadOf(s, t);
    ReadHeaderOwn(s.sh, t, s.threads[t], o);
    LocalStepInv(s, t, NextPC(s.sh, s.threads[t], ReadHeaderByte(o)));
  }

  /** One header byte more: true if the position is still current, anything if not. */
  lemma ReadHeaderOwn(sh: Shared, t: nat, pc: PC, o: nat)
    requires SharedOk(sh) && ThreadOk(sh, t, pc) && |sh.mem| > 0 && EnabledAt(sh, pc, ReadHeaderByte(o))
    ensures ThreadOk(sh, t, NextPC(sh, pc, ReadHeaderByte(o))) && NextPC(sh, pc, ReadHeaderByte(o)).ReadingHeader?
  {
    hide Slot, Record, Header, SharedOk, HeaderSeen, Below;
    OneByteMore(pc.got, o, sh.mem[Slot(pc.pos, |sh.mem|) + o]);
    if pc.pos == sh.preDequeue {
      HeaderByte(sh, pc.pos, o);
      HeaderSeenMore(pc.got, sh.log[|sh.claims|].msg, o);
    }
  }

  lemma OneByteMore(got: map<nat, byte>, o: nat, b: byte)
    requires got.Keys <= Below(4) && o < 4
    ensures got[o := b].Keys <= Below(4)
  {
  }

  lemma HeaderSeenMore(got: map<nat, byte>, msg: Message, o: nat)
    requires HeaderSeen(got, msg) && o < 4
    ensures HeaderSeen(got[o := Header(|msg|)[o]], msg)
  {
    hide Header;
  }

  // Claim

  /** A complete header read through a current position tells the true length. */
  lemma HeaderTrue(got: map<nat, byte>, msg: Message)
    requires HeaderSeen(got, msg) && got.Keys == Below(4)
    ensures HeaderLen(got) == |msg|
  {
    hide Le32, FromLe32;
    var b := [got[0], got[1], got[2], got[3]];
    assert b == Le32(|msg|) by {
      forall i | 0 <= i < 4 ensures b[i] == Le32(|msg|)[i] {
        assert i in got && Header(|msg|)[i] == Le32(|msg|)[i];
      }
    }
    Le32RoundTrip(|msg|);
  }

  lemma ClaimShared(sh: Shared, t: nat, len: nat)
    requires SharedOk(sh) && |sh.claims| < sh.published && len == |sh.log[|sh.claims|].msg|
    ensures var sh' := sh.(preDequeue := sh.preDequeue + ActualLen32(len), claims := sh.claims + [t]);
      SharedOk(sh') && Extends(sh, sh')
  {
    hide Record, Slot, QueueSize, DataOk, OutsOk, LogOk;
    var k := |sh.claims|;
    var sh' := sh.(preDequeue := sh.preDequeue + ActualLen32(len), claims := sh.claims + [t]);
    SameLog(sh, sh');
    SameOuts(sh, sh');
    SameData(sh, sh');
    RecordEnds(sh, k);
    ActualLen32Exact(len);
    PosGrows(sh, k + 1, sh.published);
  }

  /** A header that is read completely while the position is current tells the true length. */
  lemma ClaimedLen(s: Sys, t: nat, noMemory: bool)
    requires Inv(s) && Enabled(s, t, Claim(noMemory)) && s.sh.preDequeue == s.threads[t].pos
    ensures |s.sh.claims| < s.sh.published <= |s.sh.log|
    ensures HeaderLen(s.threads[t].got) == |s.sh.log[|s.sh.claims|].msg|
  {
    hide Record, Header, ThreadsOk, SharedOk, ProducersOk, ConsumersOk, HeaderLen, HeaderSeen, FillingOk, Slot;
    ThreadOf(s, t);
    HeaderTrue(s.threads[t].got, s.sh.log[|s.sh.claims|].msg);
  }

  lemma ClaimOwn(s: Sys, t: nat, noMemory: bool)
    requires Inv(s) && Enabled(s, t, Claim(noMemory)) && s.sh.preDequeue == s.threads[t].pos
    ensures var sh' := Do(s, t, Claim(noMemory)).sh;
      Extends(s.sh, sh') && SharedOk(sh') && ThreadOk(sh', t, Do(s, t, Claim(noMemory)).threads[t])
  {
    hide Record, Header, ThreadsOk, SharedOk, ProducersOk, ConsumersOk, ActualLen32, HeaderLen, Slot;
    hide Extends, ThreadOk, NextPC;
    ClaimedLen(s, t, noMemory);
    ClaimShared(s.sh, t, HeaderLen(s.threads[t].got));
    NextClaimOk(s.sh);
    ClaimTaken(s.sh, Do(s, t, Claim(noMemory)).sh, t, s.threads[t], noMemory);
  }

  lemma ClaimTaken(sh: Shared, sh': Shared, t: nat, pc: PC, noMemory: bool)
    requires |sh.mem| > 0 && EnabledAt(sh, pc, Claim(noMemory)) && sh.preDequeue == pc.pos
    requires |sh.outs| <= |sh.claims| < |sh.log| && sh.log[|sh.claims|].pos == sh.preDequeue
    requires HeaderLen(pc.got) == |sh.log[|sh.claims|].msg|
    requires sh'.outs == sh.outs && sh'.log == sh.log && sh'.claims == sh.claims + [t]
    ensures ThreadOk(sh', t, NextPC(sh, pc, Claim(noMemory)))
  {
    hide Record, Header, Slot, HeaderLen, EnabledAt, FillingOk, ReadingOk, CopiedOk, Below;
    NoneCopiedYet(sh.log[|sh.claims|].msg);
  }

  lemma NoneCopiedYet(msg: Message)
    ensures CopiedOk(msg, Below(|msg|), map[])
  {
  }

  lemma NextClaimOk(sh: Shared)
    requires SharedOk(sh) && |sh.claims| < sh.published
    ensures |sh.outs| <= |sh.claims| < |sh.log| && sh.log[|sh.claims|].pos == sh.preDequeue
  {
    hide DataOk, OutsOk, QueueSize;
  }

  lemma ClaimUndisturbed(s: Sys, t: nat, noMemory: bool)
    requires Inv(s) && Enabled(s, t, Claim(noMemory)) && s.sh.preDequeue == s.threads[t].pos
    ensures var sh' := Do(s, t, Claim(noMemory)).sh;
      forall u | 0 <= u < |s.threads| && u != t :: Undisturbed(sh', s.threads[u])
  {
    hide Slot, Record, PartlyWritten, ThreadsOk, Undisturbed, SharedOk, ProducersOk, ConsumersOk, ThreadOk;
    var sh' := Do(s, t, Claim(noMemory)).sh;
    forall u | 0 <= u < |s.threads| && u != t ensures Undisturbed(sh', s.threads[u]) {
      ThreadOf(s, u);
      SameMemUndisturbed(s.sh, sh', u, s.threads[u]);
    }
  }

  lemma NotMaker(s: Sys, t: nat)
    requires Inv(s) && t < |s.threads| && !s.threads[t].Filling?
    ensures forall k | s.sh.published <= k < |s.sh.log| :: s.sh.log[k].maker != t
  {
    forall k | s.sh.published <= k < |s.sh.log| ensures s.sh.log[k].maker != t {
      assert MadeBy(s.threads, s.sh.log[k].maker, k);
    }
  }

  lemma ClaimWins(s: Sys, t: nat, noMemory: bool)
    requires Inv(s) && Enabled(s, t, Claim(noMemory)) && s.sh.preDequeue == s.threads[t].pos
    ensures Inv(Do(s, t, Claim(noMemory)))
  {
    hide Slot, Record, ThreadsOk, PartlyWritten, Undisturbed, SharedOk, ProducersOk, ConsumersOk, Extends;
    hide ReadingOk, ThreadOk, HeaderLen;
    ClaimOwn(s, t, noMemory);
    ClaimUndisturbed(s, t, noMemory);
    NotMaker(s, t);
    NotTaken(s, t);
    ShiftOwners(s, Do(s, t, Claim(noMemory)), t);
    ShiftThreads(s, Do(s, t, Claim(noMemory)), t);
  }

  lemma ClaimInv(s: Sys, t: nat, noMemory: bool)
    requires Inv(s) && Enabled(s, t, Claim(noMemory))
    ensures Inv(Do(s, t, Claim(noMemory)))
  {
    hide Slot, Record, ThreadsOk, PartlyWritten, Undisturbed, SharedOk, ProducersOk, ConsumersOk, Extends, ReadingOk;
    if s.sh.preDequeue == s.threads[t].pos {
      ClaimWins(s, t, noMemory);
    } else {
      LocalStepInv(s, t, TryClaim(s.threads[t].room));
    }
  }

  // CopyByte

  /** A byte copied out of a claimed record is the byte of its message. */
  lemma CopiedByte(sh: Shared, k: nat, o: nat)
    requires SharedOk(sh) && |sh.outs| <= k < |sh.claims| && o < |sh.log[k].msg|
    ensures sh.mem[Slot(sh.log[k].pos + HEADER + o, |sh.mem|)] == sh.log[k].msg[o]
  {
    hide OutsOk, Header, Slot;
    assert RecordLies(sh.mem, sh.log[k]);
    assert Record(sh.log[k].msg)[HEADER + o] == sh.log[k].msg[o];
    assert sh.mem[Slot(sh.log[k].pos + (HEADER + o), |sh.mem|)] == Record(sh.log[k].msg)[HEADER + o];
  }

  lemma CopyOwn(sh: Shared, t: nat, pc: PC, o: nat)
    requires SharedOk(sh) && ThreadOk(sh, t, pc) && EnabledAt(sh, pc, CopyByte(o)) && |sh.mem| > 0
    ensures ThreadOk(sh, t, NextPC(sh, pc, CopyByte(o)))
  {
    hide Slot, SharedOk, FillingOk, ReadingOk, CopiedOk, Below, Record;
    CopiedMore(sh.log[pc.index].msg, pc.todo, pc.out, o);
    CopiedByte(sh, pc.index, o);
  }

  lemma CopiedMore(msg: Message, todo: set<nat>, out: map<nat, byte>, o: nat)
    requires CopiedOk(msg, todo, out) && o in todo
    ensures o < |msg| && CopiedOk(msg, todo - {o}, out[o := msg[o]])
  {
    hide Below;
  }

  lemma CopyInv(s: Sys, t: nat, o: nat)
    requires Inv(s) && Enabled(s, t, CopyByte(o))
    ensures Inv(Do(s, t, CopyByte(o)))
  {
    hide Slot, Record, SharedOk, PartlyWritten, ThreadOk, Below;
    var s' := Do(s, t, CopyByte(o));
    ThreadOf(s, t);
    CopyOwn(s.sh, t, s.threads[t], o);
    forall k | s'.sh.published <= k < |s'.sh.log| ensures MadeBy(s'.threads, s'.sh.log[k].maker, k) {
      assert MadeBy(s.threads, s.sh.log[k].maker, k);
    }
    forall k | |s'.sh.outs| <= k < |s'.sh.claims| ensures TakenBy(s'.threads, s'.sh.claims[k], k) {
      assert TakenBy(s.threads, s.sh.claims[k], k);
    }
  }

  // Release

  lemma OutcomeTrue(sh: Shared, t: nat, pc: PC)
    requires ThreadOk(sh, t, pc) && |sh.mem| > 0 && EnabledAt(sh, pc, Release)
    ensures pc.index < |sh.log| && Delivers(OutcomeOf(pc), sh.log[pc.index].msg)
  {
    hide FillingOk, ReadingOk;
    if pc.Copying? {
      var msg := sh.log[pc.index].msg;
      assert Assemble(pc.out, pc.len) == msg by {
        forall i | 0 <= i < |msg| ensures pc.out[i] == msg[i] {
          assert i in Below(|msg|);
        }
      }
    }
  }

  /** A thread whose turn it is to release holds the oldest claim. */
  lemma ReleaseHead(sh: Shared, t: nat, pc: PC)
    requires SharedOk(sh) && ThreadOk(sh, t, pc) && (pc.Dropping? || pc.Copying?) && sh.dequeue == pc.pos
    ensures pc.index == |sh.outs| < |sh.claims| <= |sh.log|
    ensures pc.pos + ActualLen32(pc.len) == End(sh.log[pc.index])
  {
    hide CopiedOk, ActualLen32, ActualLen, DataOk, OutsOk, LogOk, QueueSize;
    OrderedFrom(sh, |sh.outs|, pc.index);
    RecordEnds(sh, pc.index);
    ActualLen32Exact(pc.len);
  }

  lemma ReleaseShared(sh: Shared, t: nat, pc: PC)
    requires SharedOk(sh) && ThreadOk(sh, t, pc) && EnabledAt(sh, pc, Release) && sh.dequeue == pc.pos
    ensures pc.index == |sh.outs|
    ensures var sh' := sh.(dequeue := pc.pos + ActualLen32(pc.len), outs := sh.outs + [OutcomeOf(pc)]);
      SharedOk(sh') && Extends(sh, sh')
  {
    hide DataOk, OutsOk, LogOk, ThreadOk, ActualLen32, OutcomeOf, Delivers, Extends, Below;
    OutcomeTrue(sh, t, pc);
    ReleaseHead(sh, t, pc);
    ReleaseCursors(sh, OutcomeOf(pc));
  }

  lemma ReleaseCursors(sh: Shared, outcome: Outcome)
    requires SharedOk(sh) && |sh.outs| < |sh.claims| && Delivers(outcome, sh.log[|sh.outs|].msg)
    ensures var sh' := sh.(dequeue := End(sh.log[|sh.outs|]), outs := sh.outs + [outcome]);
      SharedOk(sh') && Extends(sh, sh')
  {
    hide Record, Slot, QueueSize, Delivers, DataOk, LogOk;
    var k := |sh.outs|;
    var sh' := sh.(dequeue := End(sh.log[k]), outs := sh.outs + [outcome]);
    SameLog(sh, sh');
    SameData(sh, sh');
    RecordEnds(sh, k);
    PosGrows(sh, k + 1, |sh.claims|);
  }

  lemma ReleaseOther(sh: Shared, sh': Shared, t: nat, k: nat, u: nat, qc: PC)
    requires k == |sh.outs| < |sh.claims| && sh.claims[k] == t && ThreadOk(sh, u, qc) && u != t
    requires sh'.mem == sh.mem && sh'.published == sh.published && |sh'.outs| == k + 1
    ensures Undisturbed(sh', qc)
  {
    hide PartlyWritten, ReadingOk;
  }

  lemma ReleaseOwn(s: Sys, t: nat)
    requires Inv(s) && Enabled(s, t, Release) && s.sh.dequeue == s.threads[t].pos
    ensures var sh' := Do(s, t, Release).sh;
      SharedOk(sh') && Extends(s.sh, sh') && sh' == AfterRelease(s.sh, s.threads[t])
    ensures s.threads[t].index == |s.sh.outs| < |s.sh.claims| && s.sh.claims[|s.sh.outs|] == t
  {
    hide Slot, Record, ThreadsOk, SharedOk, ProducersOk, ConsumersOk, CopiedOk, Extends, Below, ActualLen32, OutcomeOf;
    ThreadOf(s, t);
    ReleaseShared(s.sh, t, s.threads[t]);
  }

  lemma ReleaseUndisturbed(s: Sys, t: nat)
    requires Inv(s) && Enabled(s, t, Release) && s.sh.dequeue == s.threads[t].pos
    ensures var sh' := Do(s, t, Release).sh;
      forall u | 0 <= u < |s.threads| && u != t :: Undisturbed(sh', s.threads[u])
  {
    hide Slot, Record, ThreadsOk, Undisturbed, SharedOk, ProducersOk, ConsumersOk, ThreadOk, Extends, Below;
    hide ActualLen32, OutcomeOf;
    var sh' := Do(s, t, Release).sh;
    ReleaseOwn(s, t);
    forall u | 0 <= u < |s.threads| && u != t ensures Undisturbed(sh', s.threads[u]) {
      ThreadOf(s, u);
      ReleaseOther(s.sh, sh', t, s.threads[t].index, u, s.threads[u]);
    }
  }

  lemma IdleOk(sh: Shared, t: nat)
    ensures ThreadOk(sh, t, Idle)
  {
  }

  lemma ReleaseInv(s: Sys, t: nat)
    requires Inv(s) && Enabled(s, t, Release)
    ensures Inv(Do(s, t, Release))
  {
    hide Slot, Record, ThreadsOk, PartlyWritten, Undisturbed, SharedOk, ProducersOk, ConsumersOk, Extends, ThreadOk;
    if s.sh.dequeue == s.threads[t].pos {
      ReleaseOwn(s, t);
      ReleaseUndisturbed(s, t);
      NotMaker(s, t);
      TakenIndex(s, t);
      assert ThreadOk(Do(s, t, Release).sh, t, Idle) by { IdleOk(Do(s, t, Release).sh, t); }
      ShiftOwners(s, Do(s, t, Release), t);
      ShiftThreads(s, Do(s, t, Release), t);
    } else {
      assert s.threads[t := s.threads[t]] == s.threads;
    }
  }

  /** Every step of every thread keeps the invariant. */
  lemma StepInv(s: Sys, t: nat, a: Action)
    requires Inv(s) && Enabled(s, t, a)
    ensures Inv(Do(s, t, a))
  {
    hide Inv, Enabled, Do;
    match a
    case Reserve => ReserveInv(s, t);
    case WriteByte(o) => WriteInv(s, t, o);
    case Publish => PublishInv(s, t);
    case ReadEnqueue => ReadEnqueueInv(s, t);
    case ReadHeaderByte(o) => ReadHeaderInv(s, t, o);
    case Claim(noMemory) => ClaimInv(s, t, noMemory);
    case CopyByte(o) => CopyInv(s, t, o);
    case Release => ReleaseInv(s, t);
    case _ => QuietInv(s, t, a);
  }
}
