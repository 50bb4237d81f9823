/** send_data_cache of socket_set.cpp: bytes move from the cache of a socket to the wire, none lost, none
    doubled, unless the socket fails. */
module SocketCache {
  import opened Bytes
  import opened ElementSet
  import opened PoolShape
  import opened MemoryPool
  import opened Cache

  /** The most that one call of write on Linux takes. */
  const WRITE_MAX: nat := 0x7FFF_F000

  datatype Errno = Again | Interrupted | Broken

  datatype Written = Took(n: nat) | Failed(errno: Errno)

  /** One call of write: what it was given, and what it answered. */
  datatype Call = Call(data: seq<byte>, answer: Written)

  /** Write was called with exactly these bytes until it was no longer interrupted; its last answer is `answer`. */
  ghost predicate Wrote(calls: seq<Call>, data: seq<byte>, answer: Written) {
    calls != [] && calls[|calls| - 1].answer == answer && answer != Failed(Interrupted) &&
    (forall i | 0 <= i < |calls| :: calls[i].data == data) &&
    forall i | 0 <= i < |calls| - 1 :: calls[i].answer == Failed(Interrupted)
  }

  class Socket {
    var connected: bool
    const sc: Cache
    /** What the kernel has taken. */
    var wire: seq<byte>
    /** Every call of write on this socket. */
    ghost var calls: seq<Call>

    constructor (sc: Cache)
      ensures this.sc == sc && !connected && wire == [] && calls == []
    {
      this.sc := sc;
      connected, wire, calls := false, [], [];
    }

    /** write(2): takes some first part of the bytes, or fails. It is interrupted only while `interrupts` allow. */
    method Write(data: seq<byte>, interrupts: nat) returns (r: Written)
      modifies this`wire, this`calls
      ensures r.Took? ==> r.n <= |data| && r.n <= WRITE_MAX && wire == old(wire) + data[..r.n]
      ensures r.Failed? ==> wire == old(wire)
      ensures r == Failed(Interrupted) ==> interrupts > 0
      ensures calls == old(calls) + [Call(data, r)]
    {
      var e: Errno := *;
      r := Failed(if e == Interrupted && interrupts == 0 then Again else e);
      if * {
        var n :| 0 <= n <= |data| && n <= WRITE_MAX;
        wire := wire + data[..n];
        r := Took(n);
      }
      calls := calls + [Call(data, r)];
    }

    /** socket_set.cpp, lines 194-206: once more for as long as the call is interrupted. */
    method WriteAgain(data: seq<byte>, interrupts: nat) returns (r: Written)
      modifies this`wire, this`calls
      ensures r.Took? ==> r.n <= |data| && r.n <= WRITE_MAX && wire == old(wire) + data[..r.n]
      ensures r.Failed? ==> wire == old(wire) && r.errno != Interrupted
      ensures old(calls) <= calls && Wrote(calls[|old(calls)|..], data, r)
    {
      var left := interrupts;
      r := Write(data, left);
      while r == Failed(Interrupted)
        invariant r.Took? ==> r.n <= |data| && r.n <= WRITE_MAX && wire == old(wire) + data[..r.n]
        invariant r.Failed? ==> wire == old(wire)
        invariant r == Failed(Interrupted) ==> left > 0
        invariant old(calls) < calls && calls[|calls| - 1] == Call(data, r)
        invariant forall i | |old(calls)| <= i < |calls| :: calls[i].data == data
        invariant forall i | |old(calls)| <= i < |calls| - 1 :: calls[i].answer == Failed(Interrupted)
        decreases left
      {
        left := left - 1;
        r := Write(data, left);
      }
    }
  }

  /** socket_set.cpp, lines 178-227. `answer` is the last answer of write, if it was called; the result follows from
      it alone. */
  method SendDataCache(s: Socket?, interrupts: nat) returns (result: int, ghost answer: Option<Written>)
    requires s != null ==> s.sc.Valid()
    modifies s, if s != null then {s.sc, s.sc.mp, s.sc.mp.buckets, s.sc.mp.elements, s.sc.mp.elements.elems} else {}
    ensures s == null <==> result == -2
    ensures s != null ==> s.sc.Valid() && s.connected == old(s.connected)
    ensures result == -3 <==> s != null && !s.connected
    ensures result == -3 ==> s.wire == old(s.wire) && s.sc.Contents() == old(s.sc.Contents())
    ensures result == -4 ==> s.wire == old(s.wire) && s.sc.Contents() == []
    ensures result >= 0 ==> s != null && result <= |old(s.sc.Contents())|
    ensures result >= 0 ==> s.wire == old(s.wire) + old(s.sc.Contents())[..result]
    ensures result >= 0 ==> s.wire + s.sc.Contents() == old(s.wire + s.sc.Contents())
    ensures result >= 0 || result == -2 || result == -3 || result == -4
    ensures s != null ==> s.sc.Others() == old(s.sc.Others())
    ensures answer.Some? <==> s != null && s.connected && old(s.sc.Contents()) != []
    ensures s != null && answer.None? ==> s.calls == old(s.calls) && (s.connected ==> result == 0)
    ensures answer.Some? ==> old(s.calls) <= s.calls
    ensures answer.Some? ==> Wrote(s.calls[|old(s.calls)|..], old(s.sc.Contents()), answer.value)
    ensures answer.Some? && answer.value.Took? ==> result == answer.value.n
    ensures answer == Some(Failed(Again)) ==>
      result == 0 && s.wire == old(s.wire) && s.sc.Contents() == old(s.sc.Contents())
    ensures answer == Some(Failed(Broken)) <==> result == -4
  {
    hide SizeOf, Fits, Shape, Total, HeldOf, FreeChain, UsedChain, MemoryPool.Valid, MemoryPool.Held, Wrote;
    answer := None;
    if s == null {
      return -2, None;
    }
    if !s.connected {
      return -3, None;
    }
    result := 0;
    if s.sc.dataLen == 0 {
      return;
    }
    ghost var wire, held := s.wire, s.sc.Contents();
    var r := s.WriteAgain(s.sc.ptr[s.sc.offset..s.sc.offset + s.sc.dataLen], interrupts);
    answer := Some(r);
    if r.Failed? {
      if r.errno == Broken {
        s.sc.Skip(s.sc.dataLen);
        return -4, answer;
      }
    } else {
      s.sc.Skip(r.n);
      result := r.n;
      NoneLost(wire, held, r.n);
    }
  }

  /** The first n bytes have gone over, the others stay. */
  lemma NoneLost(wire: seq<byte>, held: seq<byte>, n: nat)
    requires n <= |held|
    ensures wire + held[..n] + (if n >= |held| then [] else held[n..]) == wire + held
  {
    assert held[..n] + (if n >= |held| then [] else held[n..]) == held;
    ConcatAssociates(wire, held[..n], if n >= |held| then [] else held[n..]);
  }
}
