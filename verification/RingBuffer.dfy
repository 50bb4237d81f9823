/** The array code of queue.cpp as one thread runs it: gather copies that can be resumed, records that
    wrap around the end of the buffer, and the queue operations built from them. */
module RingBuffer {
  import opened Bytes
  import opened RingLayout

  // ------------------------------------------------------------------------------------------------
  // Writing around the ring, as a function
  // ------------------------------------------------------------------------------------------------

  /** The buffer after `rec` has been written from position pos on, one byte after the other. */
  function Overwrite(mem: seq<byte>, pos: nat, rec: seq<byte>): (r: seq<byte>)
    requires |mem| > 0
    ensures |r| == |mem|
    decreases |rec|
  {
    if rec == [] then mem
    else
      var n := |rec| - 1;
      Overwrite(mem, pos, rec[..n])[Slot(pos + n, |mem|) := rec[n]]
  }

  /** What fits in the ring lies there afterwards, and nothing else has changed. */
  lemma {:induction false} OverwriteHolds(mem: seq<byte>, pos: nat, rec: seq<byte>)
    requires 0 < |mem| && |rec| <= |mem|
    ensures Holds(Overwrite(mem, pos, rec), pos, rec)
    ensures forall x | pos + |rec| <= x < pos + |mem| ::
      Overwrite(mem, pos, rec)[Slot(x, |mem|)] == mem[Slot(x, |mem|)]
    decreases |rec|
  {
    hide Slot;
    if rec != [] {
      var n, size := |rec| - 1, |mem|;
      var before := Overwrite(mem, pos, rec[..n]);
      OverwriteHolds(mem, pos, rec[..n]);
      var after := Overwrite(mem, pos, rec);
      assert after == before[Slot(pos + n, size) := rec[n]];
      forall o | 0 <= o < |rec| ensures after[Slot(pos + o, size)] == rec[o] {
        if o < n {
          SlotsDiffer(pos + o, pos + n, size);
          assert before[Slot(pos + o, size)] == rec[..n][o];
        }
      }
      forall x | pos + |rec| <= x < pos + size ensures after[Slot(x, size)] == mem[Slot(x, size)] {
        SlotsDiffer(x, pos + n, size);
      }
    }
  }

  /** Where slot i lies when counting from pos. */
  function Unslot(i: nat, pos: nat, size: nat): (x: nat)
    requires i < size
    ensures pos <= x < pos + size
  {
    if Slot(pos, size) <= i then pos + (i - Slot(pos, size)) else pos + (size + i - Slot(pos, size))
  }

  lemma UnslotSlot(i: nat, pos: nat, size: nat)
    requires i < size
    ensures Slot(Unslot(i, pos, size), size) == i
  {
    var s := Slot(pos, size);
    if s <= i {
      SlotUnwrapped(pos, i - s, size);
    } else {
      SlotWrapped(pos, size + i - s, size);
    }
  }

  /** Those two facts leave no choice. */
  lemma OverwriteUnique(mem: seq<byte>, pos: nat, rec: seq<byte>, mem': seq<byte>)
    requires 0 < |mem| == |mem'| && |rec| <= |mem|
    requires Holds(mem', pos, rec)
    requires forall x | pos + |rec| <= x < pos + |mem| :: mem'[Slot(x, |mem|)] == mem[Slot(x, |mem|)]
    ensures mem' == Overwrite(mem, pos, rec)
  {
    hide Slot, Overwrite;
    var r := Overwrite(mem, pos, rec);
    OverwriteHolds(mem, pos, rec);
    forall i | 0 <= i < |mem| ensures mem'[i] == r[i] {
      UnslotSlot(i, pos, |mem|);
      var x := Unslot(i, pos, |mem|);
      if x < pos + |rec| {
        assert mem'[Slot(pos + (x - pos), |mem|)] == rec[x - pos];
        assert r[Slot(pos + (x - pos), |mem|)] == rec[x - pos];
      }
    }
  }

  /** A record that does not reach the end lies in one piece. */
  lemma OnePiece(mem: seq<byte>, pos: nat, rec: seq<byte>, mem': seq<byte>)
    requires |mem| > 0 && Slot(pos, |mem|) + |rec| <= |mem|
    requires mem' == Splice(mem, Slot(pos, |mem|), rec)
    ensures mem' == Overwrite(mem, pos, rec)
  {
    hide Slot, Overwrite, Splice;
    var s, size := Slot(pos, |mem|), |mem|;
    forall o | 0 <= o < |rec| ensures mem'[Slot(pos + o, size)] == rec[o] {
      SlotUnwrapped(pos, o, size);
      SpliceIndex(mem, s, rec, s + o);
    }
    forall x | pos + |rec| <= x < pos + size ensures mem'[Slot(x, size)] == mem[Slot(x, size)] {
      SpliceIndex(mem, s, rec, Slot(x, size));
      if s + (x - pos) < size {
        SlotUnwrapped(pos, x - pos, size);
      } else {
        SlotWrapped(pos, x - pos, size);
      }
    }
    OverwriteUnique(mem, pos, rec, mem');
  }

  /** A record that reaches past the end lies in two. */
  lemma TwoPieces(mem: seq<byte>, pos: nat, rec: seq<byte>, mem': seq<byte>)
    requires 0 < |mem| && |rec| <= |mem| <= Slot(pos, |mem|) + |rec|
    requires var s, k := Slot(pos, |mem|), |mem| - Slot(pos, |mem|);
      mem' == rec[k..] + mem[|rec| - k..s] + rec[..k]
    ensures mem' == Overwrite(mem, pos, rec)
  {
    hide Slot, Overwrite;
    var s, size := Slot(pos, |mem|), |mem|;
    var k := size - s;
    forall o | 0 <= o < |rec| ensures mem'[Slot(pos + o, size)] == rec[o] {
      if o < k {
        SlotUnwrapped(pos, o, size);
      } else {
        SlotWrapped(pos, o, size);
      }
    }
    forall x | pos + |rec| <= x < pos + size ensures mem'[Slot(x, size)] == mem[Slot(x, size)] {
      SlotWrapped(pos, x - pos, size);
    }
    OverwriteUnique(mem, pos, rec, mem');
  }

  // ------------------------------------------------------------------------------------------------
  // memcpy_v
  // ------------------------------------------------------------------------------------------------

  function Min(a: int, b: int): int {
    if a <= b then a else b
  }

  /** How many bytes of a gather list lie before chunk i, offset o. */
  function Passed(src: seq<seq<byte>>, i: nat, o: nat): (n: nat)
    requires i <= |src|
  {
    |Flatten(src[..i])| + (if i < |src| then Min(o, |src[i]|) else 0)
  }

  lemma FlattenOne(chunk: seq<byte>)
    ensures Flatten([chunk]) == chunk
  {
    assert [chunk][1..] == [];
    assert chunk + [] == chunk;
  }

  lemma FlattenAt(src: seq<seq<byte>>, i: nat)
    requires i < |src|
    ensures Flatten(src) == Flatten(src[..i]) + src[i] + Flatten(src[i + 1..])
    ensures Flatten(src[..i + 1]) == Flatten(src[..i]) + src[i]
  {
    hide Flatten;
    FlattenSplit(src, i + 1);
    FlattenNext(src, i);
  }

  lemma FlattenSplit(src: seq<seq<byte>>, k: nat)
    requires k <= |src|
    ensures Flatten(src) == Flatten(src[..k]) + Flatten(src[k..])
  {
    hide Flatten;
    FlattenConcat(src[..k], src[k..]);
    assert src[..k] + src[k..] == src;
  }

  lemma FlattenNext(src: seq<seq<byte>>, i: nat)
    requires i < |src|
    ensures Flatten(src[..i + 1]) == Flatten(src[..i]) + src[i]
  {
    hide Flatten;
    FlattenConcat(src[..i], [src[i]]);
    assert src[..i] + [src[i]] == src[..i + 1];
    FlattenOne(src[i]);
  }

  lemma PassedBound(src: seq<seq<byte>>, i: nat, o: nat)
    requires i <= |src|
    ensures Passed(src, i, o) <= |Flatten(src)|
  {
    if i < |src| {
      FlattenAt(src, i);
    } else {
      assert src[..i] == src;
    }
  }

  /** Bytes of one chunk are bytes of the whole. */
  lemma ChunkIs(src: seq<seq<byte>>, i: nat, o: nat, n: nat)
    requires i < |src| && o + n <= |src[i]|
    ensures Passed(src, i, o + n) == Passed(src, i, o) + n <= |Flatten(src)|
    ensures Flatten(src)[Passed(src, i, o)..Passed(src, i, o) + n] == src[i][o..o + n]
  {
    hide Flatten;
    FlattenAt(src, i);
  }

  lemma NextChunk(src: seq<seq<byte>>, i: nat, o: nat)
    requires i < |src| && o >= |src[i]|
    ensures Passed(src, i + 1, 0) == Passed(src, i, o)
  {
    hide Flatten;
    FlattenAt(src, i);
  }

  lemma AllPassed(src: seq<seq<byte>>, o: nat)
    ensures Passed(src, |src|, o) == |Flatten(src)|
  {
    assert src[..|src|] == src;
  }

  /** `now` is `was` with the bytes all[p..] written from `at` up to `d`. */
  ghost predicate CopiedUpTo(now: seq<byte>, was: seq<byte>, all: seq<byte>, at: nat, p: nat, d: nat) {
    at <= d <= |was| && p + (d - at) <= |all| && now == Splice(was, at, all[p..p + (d - at)])
  }

  lemma CopyOn(now: seq<byte>, was: seq<byte>, all: seq<byte>, at: nat, p: nat, d: nat, n: nat)
    requires CopiedUpTo(now, was, all, at, p, d) && d + n <= |was| && p + (d - at) + n <= |all|
    ensures |now| == |was|
    ensures CopiedUpTo(Splice(now, d, all[p + (d - at)..p + (d - at) + n]), was, all, at, p, d + n)
  {
  }

  lemma NothingCopied(was: seq<byte>, all: seq<byte>, at: nat, p: nat)
    requires at <= |was| && p <= |all|
    ensures CopiedUpTo(was, was, all, at, p, at)
  {
  }

  lemma CopyEnds(now: seq<byte>, was: seq<byte>, all: seq<byte>, at: nat, p: nat, d: nat)
    requires CopiedUpTo(now, was, all, at, p, d)
    ensures at <= d <= |was| && p + (d - at) <= |all| && now == Splice(was, at, all[p..p + (d - at)])
  {
  }

  /** Copies up to len bytes of the gather list to dst, starting where (begin, offset) says an earlier
      call stopped, and says where it stopped itself. */
  method MemcpyV(dst: array<byte>, at: nat, src: seq<seq<byte>>, len: nat, begin: nat, offset: nat)
    returns (begin': nat, offset': nat)
    requires begin <= |src|
    requires at + len <= dst.Length
    modifies dst
    ensures begin' <= |src| && Passed(src, begin, offset) <= Passed(src, begin', offset') <= |Flatten(src)|
    ensures Passed(src, begin', offset') == Min(Passed(src, begin, offset) + len, |Flatten(src)|)
    ensures var bytes := Flatten(src)[Passed(src, begin, offset)..Passed(src, begin', offset')];
      |bytes| <= len && dst[..] == Splice(old(dst[..]), at, bytes)
  {
    hide Flatten, Passed, CopiedUpTo, Splice;
    ghost var was, all := dst[..], Flatten(src);
    ghost var p := Passed(src, begin, offset);
    PassedBound(src, begin, offset);
    var i: nat, o: nat, d: nat, left: nat := begin, offset, at, len;
    NothingCopied(was, all, at, p);
    while i < |src|
      invariant i <= |src| && at <= d && left == len - (d - at)
      invariant left > 0 || d == at || i == |src|
      invariant Passed(src, i, o) == p + (d - at) <= |all|
      invariant CopiedUpTo(dst[..], was, all, at, p, d)
    {
      var n: nat := if |src[i]| > o then |src[i]| - o else 0;
      if n > left {
        n := left;
      }
      if n > 0 {
        ChunkIs(src, i, o, n);
        CopyOn(dst[..], was, all, at, p, d, n);
        Memcpy(dst, d, src[i][o..o + n]);
        d, left, o := d + n, left - n, o + n;
      }
      if left == 0 {
        break;
      }
      NextChunk(src, i, o);
      i, o := i + 1, 0;
    }
    if i == |src| {
      AllPassed(src, o);
    }
    CopyEnds(dst[..], was, all, at, p, d);
    begin', offset' := i, o;
  }

  // ------------------------------------------------------------------------------------------------
  // Filling and reading one record
  // ------------------------------------------------------------------------------------------------

  /** ACTUAL_POS(pos, size) */
  function ActualPos(pos: nat, size: nat): nat
    requires size > 0
  {
    BitAnd(pos, size - 1)
  }

  lemma ActualPosIsSlot(pos: nat, size: nat)
    requires QueueSize(size)
    ensures ActualPos(pos, size) == Slot(pos, size)
  {
    var i: nat :| i < 32 && size == Pow2(i);
    MaskIsModulo(pos, i);
  }

  /** Comparing the two masked positions tells whether the region ends before the buffer does. */
  lemma EndComparison(pos: nat, n: nat, size: nat)
    requires size > 0 && 0 < n <= size
    ensures Slot(pos + n, size) > Slot(pos, size) <==> Slot(pos, size) + n < size
  {
    if Slot(pos, size) + n < size {
      SlotUnwrapped(pos, n, size);
    } else {
      SlotWrapped(pos, n, size);
    }
  }

  lemma SpliceWrapped(was: seq<byte>, s: nat, a: seq<byte>, b: seq<byte>)
    requires s + |a| == |was| && |a| + |b| <= |was|
    ensures Splice(Splice(was, s, a), 0, b) == (a + b)[|a|..] + was[|a + b| - |a|..s] + (a + b)[..|a|]
  {
  }

  method FillStraight(queue: array<byte>, pos: nat, start: nat, src: seq<seq<byte>>, len: nat)
    requires ValidMessage(Flatten(src)) && len == |Flatten(src)|
    requires queue.Length > 0 && start == Slot(pos, queue.Length) && start + HEADER + len <= queue.Length
    modifies queue
    ensures queue[..] == Overwrite(old(queue[..]), pos, Record(Flatten(src)))
  {
    hide Flatten, Slot, Header, Passed, Overwrite, Splice;
    ghost var was, msg := queue[..], Flatten(src);
    PassedNothing(src);
    Memcpy(queue, start, Header(len));
    var _, _ := MemcpyV(queue, start + HEADER, src, len, 0, 0);
    assert msg[0..len] == msg;
    SpliceJoin(was, start, Header(len), msg);
    OnePiece(was, pos, Record(msg), queue[..]);
  }

  method FillWrapped(queue: array<byte>, pos: nat, start: nat, src: seq<seq<byte>>, len: nat)
    requires ValidMessage(Flatten(src)) && len == |Flatten(src)|
    requires HEADER + len <= queue.Length && start == Slot(pos, queue.Length) && start + HEADER <= queue.Length
    modifies queue
    ensures queue[..] == Overwrite(old(queue[..]), pos, Record(Flatten(src)))
  {
    hide Flatten, Slot, Header, Passed, Overwrite, Splice;
    ghost var was, msg := queue[..], Flatten(src);
    PassedNothing(src);
    Memcpy(queue, start, Header(len));
    var at, left: nat := start + HEADER, len;
    var begin, offset: nat := 0, 0;
    if at < queue.Length {
      var n := queue.Length - at;
      if n > len {
        n := len;
      }
      begin, offset := MemcpyV(queue, at, src, n, begin, offset);
      left := left - n;
    } else {
      SpliceNothing(queue[..], at);
    }
    ghost var first, mid := msg[..len - left], queue[..];
    assert mid == Splice(Splice(was, start, Header(len)), at, first);
    SpliceJoin(was, start, Header(len), first);
    if left > 0 {
      begin, offset := MemcpyV(queue, 0, src, left, begin, offset);
    }
    assert msg[len - left..len] == msg[len - left..];
    Pieces(was, pos, msg, len - left, mid, queue[..]);
  }

  /** The record once it is written as far as the end of the buffer and then, if anything is left, from its start. */
  lemma Pieces(was: seq<byte>, pos: nat, msg: Message, n: nat, mid: seq<byte>, now: seq<byte>)
    requires |was| > 0 && ValidMessage(msg) && HEADER + |msg| <= |was| && n <= |msg|
    requires Slot(pos, |was|) + HEADER + n <= |was| && mid == Splice(was, Slot(pos, |was|), Header(|msg|) + msg[..n])
    requires n == |msg| ==> now == mid
    requires n < |msg| ==> Slot(pos, |was|) + HEADER + n == |was| && now == Splice(mid, 0, msg[n..])
    ensures now == Overwrite(was, pos, Record(msg))
  {
    hide Slot, Header, Overwrite, Splice;
    if n == |msg| {
      assert msg[..n] == msg;
      OnePiece(was, pos, Record(msg), now);
    } else {
      SpliceWrapped(was, Slot(pos, |was|), Header(|msg|) + msg[..n], msg[n..]);
      ConcatAssociates(Header(|msg|), msg[..n], msg[n..]);
      assert msg[..n] + msg[n..] == msg;
      TwoPieces(was, pos, Record(msg), now);
    }
  }

  /** queue.cpp, lines 140-170: header, then body in one piece or in two. */
  method FillRecord(queue: array<byte>, pos: nat, src: seq<seq<byte>>, len: nat)
    requires QueueSize(queue.Length) && pos % 8 == 0
    requires ValidMessage(Flatten(src)) && len == |Flatten(src)| && ActualLen(len) <= queue.Length
    modifies queue
    ensures queue[..] == Overwrite(old(queue[..]), pos, Record(Flatten(src)))
  {
    hide Flatten, Slot, QueueSize, BitAnd, Overwrite, Record;
    var size := queue.Length;
    var start, end := ActualPos(pos, size), ActualPos(pos + ActualLen(len), size);
    ActualPosIsSlot(pos, size);
    ActualPosIsSlot(pos + ActualLen(len), size);
    AlignedSlot(pos, size);
    EndComparison(pos, ActualLen(len), size);
    if end > start {
      FillStraight(queue, pos, start, src, len);
    } else {
      FillWrapped(queue, pos, start, src, len);
    }
  }

  lemma PassedNothing(src: seq<seq<byte>>)
    ensures Passed(src, 0, 0) == 0
  {
  }

  /** The bytes a reader of a record of this length at this position gets. */
  function Body(mem: seq<byte>, pos: nat, len: nat): (data: seq<byte>)
    requires |mem| > 0
    ensures |data| == len && forall o :: 0 <= o < len ==> data[o] == mem[Slot(pos + HEADER + o, |mem|)]
  {
    seq(len, o requires 0 <= o < len => mem[Slot(pos + HEADER + o, |mem|)])
  }

  lemma BodyPieces(mem: seq<byte>, pos: nat, len: nat)
    requires |mem| > 0 && HEADER + len <= |mem| && Slot(pos, |mem|) + HEADER <= |mem|
    ensures var at, size := Slot(pos, |mem|) + HEADER, |mem|;
      Body(mem, pos, len) == if at + len <= size then mem[at..at + len] else mem[at..] + mem[..len - (size - at)]
  {
    hide Slot;
    var at, size := Slot(pos, |mem|) + HEADER, |mem|;
    var pieces := if at + len <= size then mem[at..at + len] else mem[at..] + mem[..len - (size - at)];
    forall o | 0 <= o < len ensures Body(mem, pos, len)[o] == pieces[o] {
      if at + o < size {
        SlotUnwrapped(pos, HEADER + o, size);
      } else {
        SlotWrapped(pos, HEADER + o, size);
      }
    }
  }

  /** queue.cpp, lines 247-273: the body in one piece or in two. */
  method ReadRecord(queue: array<byte>, pos: nat, len: nat, data: array<byte>)
    requires QueueSize(queue.Length) && pos % 8 == 0 && ActualLen(len) <= queue.Length
    requires data != queue && len <= data.Length
    modifies data
    ensures data[..] == Splice(old(data[..]), 0, Body(queue[..], pos, len))
  {
    hide Slot, QueueSize, BitAnd, Body, Splice;
    var size := queue.Length;
    var start, end := ActualPos(pos, size), ActualPos(pos + ActualLen(len), size);
    ActualPosIsSlot(pos, size);
    ActualPosIsSlot(pos + ActualLen(len), size);
    AlignedSlot(pos, size);
    EndComparison(pos, ActualLen(len), size);
    BodyPieces(queue[..], pos, len);
    if end > start {
      Memcpy(data, 0, queue[start + HEADER..start + HEADER + len]);
    } else {
      ReadWrapped(queue, pos, start + HEADER, len, data);
    }
  }

  method ReadWrapped(queue: array<byte>, pos: nat, at: nat, len: nat, data: array<byte>)
    requires at <= queue.Length && HEADER + len <= queue.Length && data != queue && len <= data.Length
    modifies data
    ensures data[..] == Splice(old(data[..]), 0,
      if at + len <= queue.Length then queue[at..at + len] else queue[at..] + queue[..len - (queue.Length - at)])
  {
    hide Splice;
    ghost var was := data[..];
    var n: nat := 0;
    SpliceNothing(was, 0);
    if at < queue.Length {
      n := queue.Length - at;
      if n > len {
        n := len;
      }
      Memcpy(data, 0, queue[at..at + n]);
    }
    assert data[..] == Splice(was, 0, queue[at..at + n]);
    if n < len {
      assert queue[at..at + n] == queue[at..];
      SpliceJoin(was, 0, queue[at..], queue[..len - n]);
      Memcpy(data, n, queue[..len - n]);
    }
  }

  /** The length a reader finds in the header at this position. */
  function HeaderAt(mem: seq<byte>, pos: nat): nat
    requires |mem| > 0 && Slot(pos, |mem|) + 4 <= |mem|
  {
    FromLe32(mem[Slot(pos, |mem|)..Slot(pos, |mem|) + 4])
  }

  /** A record that lies in the ring reads back as its message: length and bytes, wrapped or not. */
  lemma ReadsBack(mem: seq<byte>, pos: nat, msg: Message)
    requires QueueSize(|mem|) && pos % 8 == 0 && ValidMessage(msg) && HEADER + |msg| <= |mem|
    requires Holds(mem, pos, Record(msg))
    ensures Slot(pos, |mem|) + HEADER <= |mem| && HeaderAt(mem, pos) == |msg| && Body(mem, pos, |msg|) == msg
  {
    hide Slot, QueueSize, Le32, FromLe32;
    var rec, s := Record(msg), Slot(pos, |mem|);
    AlignedSlot(pos, |mem|);
    assert mem[s..s + 4] == Le32(|msg|) by {
      forall o | 0 <= o < 4 ensures mem[s + o] == Le32(|msg|)[o] {
        SlotUnwrapped(pos, o, |mem|);
        assert mem[Slot(pos + o, |mem|)] == rec[o];
      }
    }
    Le32RoundTrip(|msg|);
    forall o | 0 <= o < |msg| ensures Body(mem, pos, |msg|)[o] == msg[o] {
      assert mem[Slot(pos + (HEADER + o), |mem|)] == rec[HEADER + o];
    }
  }

  /** Writing a record anywhere and reading it back is the identity. */
  lemma WriteThenRead(mem: seq<byte>, pos: nat, msg: Message)
    requires QueueSize(|mem|) && pos % 8 == 0 && ValidMessage(msg) && ActualLen(|msg|) <= |mem|
    ensures Slot(pos, |mem|) + HEADER <= |mem|
    ensures var mem' := Overwrite(mem, pos, Record(msg)); HeaderAt(mem', pos) == |msg| && Body(mem', pos, |msg|) == msg
  {
    hide Slot, QueueSize, Record, HeaderAt, Body, Overwrite;
    OverwriteHolds(mem, pos, Record(msg));
    ReadsBack(Overwrite(mem, pos, Record(msg)), pos, msg);
  }
}
