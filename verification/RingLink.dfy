/** The byte steps of the protocol and the array code do the same: what one thread's steps leave in the
    buffer, or in its own copy, is what FillRecord and ReadRecord compute. */
module RingLink {
  import opened Bytes
  import opened RingLayout
  import opened RingProtocol
  import opened RingRuns
  import opened RingBuffer

  /** f is reached from s by these moves. */
  ghost predicate Ran(s: Sys, moves: seq<Move>, f: Sys) {
    Legal(s, moves) && Final(s, moves) == f
  }

  lemma RanNothing(s: Sys)
    ensures Ran(s, [], s)
  {
  }

  lemma RanFirst(s: Sys, m: Move, moves: seq<Move>, f: Sys)
    requires Enabled(s, m.t, m.a) && Ran(Do(s, m.t, m.a), moves, f)
    ensures Ran(s, [m] + moves, f)
  {
    hide Enabled, Do;
    assert ([m] + moves)[1..] == moves;
  }

  ghost predicate WrittenUpTo(pc: PC, mem: seq<byte>, was: seq<byte>, o: nat) {
    pc.Filling? && ValidMessage(pc.msg) && |was| > 0 && o <= |Record(pc.msg)| &&
    pc.todo == Below(|Record(pc.msg)|) - Below(o) && mem == Overwrite(was, pc.pos, Record(pc.msg)[..o])
  }

  lemma OneMore(n: nat, o: nat)
    requires o < n
    ensures Below(n) - Below(o) - {o} == Below(n) - Below(o + 1)
    ensures o in Below(n) - Below(o)
  {
  }

  lemma WriteOne(sh: Shared, t: nat, pc: PC, was: seq<byte>, o: nat)
    requires |sh.mem| > 0 && WrittenUpTo(pc, sh.mem, was, o) && o < |Record(pc.msg)|
    ensures EnabledAt(sh, pc, WriteByte(o))
    ensures WrittenUpTo(NextPC(sh, pc, WriteByte(o)), NextShared(sh, t, pc, WriteByte(o)).mem, was, o + 1)
    ensures NextPC(sh, pc, WriteByte(o)).msg == pc.msg && NextPC(sh, pc, WriteByte(o)).pos == pc.pos
  {
    hide Slot, Header, Below;
    var rec := Record(pc.msg);
    assert rec[..o + 1][..o] == rec[..o];
    OneMore(|rec|, o);
  }

  lemma {:induction false} WritesOverwrite(s: Sys, t: nat, was: seq<byte>, o: nat) returns (moves: seq<Move>, f: Sys)
    requires t < |s.threads| && |s.sh.mem| > 0 && WrittenUpTo(s.threads[t], s.sh.mem, was, o)
    ensures Ran(s, moves, f) && forall m | m in moves :: m.t == t && m.a.WriteByte?
    ensures |f.threads| == |s.threads| && f.threads[t].Filling?
    ensures WrittenUpTo(f.threads[t], f.sh.mem, was, |Record(s.threads[t].msg)|)
    ensures f.threads[t].msg == s.threads[t].msg && f.threads[t].pos == s.threads[t].pos
    decreases |Record(s.threads[t].msg)| - o
  {
    hide Ran, EnabledAt, NextPC, Record, Overwrite, Below, ValidMessage;
    var pc := s.threads[t];
    if o == |Record(pc.msg)| {
      RanNothing(s);
      moves, f := [], s;
    } else {
      WriteOne(s.sh, t, pc, was, o);
      moves, f := WritesOverwrite(Do(s, t, WriteByte(o)), t, was, o + 1);
      RanFirst(s, Move(t, WriteByte(o)), moves, f);
      moves := [Move(t, WriteByte(o))] + moves;
    }
  }

  lemma NothingWritten(mem: seq<byte>, pc: PC)
    requires |mem| > 0 && pc.Filling? && ValidMessage(pc.msg) && pc.todo == Below(|Record(pc.msg)|)
    ensures WrittenUpTo(pc, mem, mem, 0)
  {
    assert Record(pc.msg)[..0] == [];
    assert Below(|Record(pc.msg)|) - Below(0) == Below(|Record(pc.msg)|);
  }

  lemma AllWritten(mem: seq<byte>, was: seq<byte>, pc: PC)
    requires pc.Filling? && ValidMessage(pc.msg) && WrittenUpTo(pc, mem, was, |Record(pc.msg)|)
    ensures pc.todo == {} && mem == Overwrite(was, pc.pos, Record(pc.msg))
  {
    assert Record(pc.msg)[..|Record(pc.msg)|] == Record(pc.msg);
  }

  /** A producer that has just won its reservation and then runs alone leaves in the buffer exactly what
      FillRecord leaves there. */
  lemma FillingIsFillRecord(s: Sys, t: nat) returns (moves: seq<Move>, f: Sys)
    requires Inv(s) && t < |s.threads| && s.threads[t].Filling?
    requires s.threads[t].todo == Below(HEADER + |s.threads[t].msg|)
    ensures Ran(s, moves, f) && forall m | m in moves :: m.t == t && m.a.WriteByte?
    ensures |f.threads| == |s.threads| && f.threads[t].Filling? && f.threads[t].todo == {}
    ensures |s.sh.mem| > 0 && ValidMessage(s.threads[t].msg)
    ensures f.sh.mem == Overwrite(s.sh.mem, s.threads[t].pos, Record(s.threads[t].msg))
  {
    hide Slot, SharedOk, ProducersOk, ConsumersOk, ThreadsOk, Header, WrittenUpTo, Overwrite, Ran;
    ThreadOf(s, t);
    assert |Record(s.threads[t].msg)| == HEADER + |s.threads[t].msg|;
    NothingWritten(s.sh.mem, s.threads[t]);
    moves, f := WritesOverwrite(s, t, s.sh.mem, 0);
    AllWritten(f.sh.mem, s.sh.mem, f.threads[t]);
  }

  ghost predicate FirstCopied(pc: PC, mem: seq<byte>, o: nat) {
    pc.Copying? && |mem| > 0 && o <= pc.len && pc.todo == Below(pc.len) - Below(o) && pc.out.Keys == Below(o) &&
    forall i: nat | i < o :: pc.out[i] == Body(mem, pc.pos, pc.len)[i]
  }

  function CopiedOne(pc: PC, mem: seq<byte>, o: nat): PC
    requires pc.Copying? && |mem| > 0
  {
    Copying(pc.pos, pc.len, pc.todo - {o}, pc.out[o := mem[Slot(pc.pos + HEADER + o, |mem|)]], pc.index)
  }

  lemma CopyStep(sh: Shared, t: nat, pc: PC, o: nat)
    requires |sh.mem| > 0 && pc.Copying? && o in pc.todo
    ensures EnabledAt(sh, pc, CopyByte(o)) && NextShared(sh, t, pc, CopyByte(o)) == sh
    ensures NextPC(sh, pc, CopyByte(o)) == CopiedOne(pc, sh.mem, o)
  {
    hide Slot;
  }

  lemma CopyOne(pc: PC, mem: seq<byte>, o: nat)
    requires |mem| > 0 && FirstCopied(pc, mem, o) && o < pc.len
    ensures o in pc.todo && FirstCopied(CopiedOne(pc, mem, o), mem, o + 1)
  {
    hide Slot, Below, Body;
    OneMore(pc.len, o);
    assert Below(o) + {o} == Below(o + 1);
  }

  lemma {:induction false} CopiesBody(s: Sys, t: nat, o: nat) returns (moves: seq<Move>, f: Sys)
    requires t < |s.threads| && |s.sh.mem| > 0 && FirstCopied(s.threads[t], s.sh.mem, o)
    ensures Ran(s, moves, f) && forall m | m in moves :: m.t == t && m.a.CopyByte?
    ensures f.sh == s.sh && |f.threads| == |s.threads| && f.threads[t].Copying?
    ensures FirstCopied(f.threads[t], s.sh.mem, s.threads[t].len)
    ensures f.threads[t].len == s.threads[t].len && f.threads[t].pos == s.threads[t].pos
    decreases s.threads[t].len - o
  {
    hide Ran, EnabledAt, NextPC, NextShared, Body, Slot, Below;
    var pc := s.threads[t];
    if o == pc.len {
      RanNothing(s);
      moves, f := [], s;
    } else {
      CopyOne(pc, s.sh.mem, o);
      CopyStep(s.sh, t, pc, o);
      moves, f := CopiesBody(Do(s, t, CopyByte(o)), t, o + 1);
      RanFirst(s, Move(t, CopyByte(o)), moves, f);
      moves := [Move(t, CopyByte(o))] + moves;
    }
  }

  lemma NothingCopiedYet(mem: seq<byte>, msg: Message, pc: PC)
    requires |mem| > 0 && pc.Copying? && pc.len == |msg| && CopiedOk(msg, pc.todo, pc.out) && pc.out == map[]
    ensures FirstCopied(pc, mem, 0)
  {
    assert Below(|msg|) - pc.todo == {};
    forall o | o in Below(|msg|) ensures o in pc.todo {
      assert o !in Below(|msg|) - pc.todo;
    }
    assert pc.todo == Below(pc.len) - Below(0);
  }

  lemma AllCopied(mem: seq<byte>, pc: PC)
    requires pc.Copying? && FirstCopied(pc, mem, pc.len)
    ensures pc.todo == {} && Below(pc.len) <= pc.out.Keys && Assemble(pc.out, pc.len) == Body(mem, pc.pos, pc.len)
  {
    hide Slot;
  }

  /** A consumer that has just claimed and then runs alone hands back exactly what ReadRecord reads. */
  lemma CopyingIsReadRecord(s: Sys, t: nat) returns (moves: seq<Move>, f: Sys)
    requires Inv(s) && t < |s.threads| && s.threads[t].Copying? && s.threads[t].out == map[]
    ensures Ran(s, moves, f) && forall m | m in moves :: m.t == t && m.a.CopyByte?
    ensures f.sh == s.sh && |f.threads| == |s.threads| && f.threads[t].Copying? && |s.sh.mem| > 0
    ensures f.threads[t].todo == {} && Below(f.threads[t].len) <= f.threads[t].out.Keys
    ensures OutcomeOf(f.threads[t]) == Got(Body(s.sh.mem, s.threads[t].pos, s.threads[t].len))
  {
    hide Slot, ProducersOk, ConsumersOk, ThreadsOk, LogOk, DataOk, OutsOk, CopiedOk, FirstCopied, Body, Ran;
    ThreadOf(s, t);
    NothingCopiedYet(s.sh.mem, s.sh.log[s.threads[t].index].msg, s.threads[t]);
    moves, f := CopiesBody(s, t, 0);
    AllCopied(s.sh.mem, f.threads[t]);
  }
}
