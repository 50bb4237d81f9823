/** queue_t as a single thread sees it: init, enqueue and dequeue over the real buffer. Alone, every
    compare-and-swap succeeds at the first try; RingProtocol says what happens otherwise. */
module RingQueue {
  import opened Bytes
  import opened RingLayout
  import opened RingBuffer

  function TotalLen(msgs: seq<Message>): (n: nat)
    ensures n % 8 == 0
  {
    if msgs == [] then 0 else ActualLen(|msgs[0]|) + TotalLen(msgs[1..])
  }

  /** The records of msgs lie in the ring, one behind the other, from pos on. */
  ghost predicate Laid(mem: seq<byte>, pos: nat, msgs: seq<Message>)
    requires |mem| > 0
    decreases |msgs|
  {
    msgs == [] ||
    (ValidMessage(msgs[0]) && Holds(mem, pos, Record(msgs[0])) && Laid(mem, pos + ActualLen(|msgs[0]|), msgs[1..]))
  }

  lemma {:induction false} LaidFrame(mem: seq<byte>, mem': seq<byte>, pos: nat, msgs: seq<Message>, end: nat)
    requires 0 < |mem| == |mem'| && Laid(mem, pos, msgs) && pos + TotalLen(msgs) <= end
    requires forall x | pos <= x < end :: mem'[Slot(x, |mem|)] == mem[Slot(x, |mem|)]
    ensures Laid(mem', pos, msgs)
    decreases |msgs|
  {
    hide Slot, Record;
    if msgs != [] {
      LaidFrame(mem, mem', pos + ActualLen(|msgs[0]|), msgs[1..], end);
      assert Holds(mem', pos, Record(msgs[0])) by {
        forall o | 0 <= o < |Record(msgs[0])| ensures mem'[Slot(pos + o, |mem'|)] == Record(msgs[0])[o] {
          assert mem[Slot(pos + o, |mem|)] == Record(msgs[0])[o];
        }
      }
    }
  }

  lemma {:induction false} LaidAppend(mem: seq<byte>, pos: nat, msgs: seq<Message>, msg: Message)
    requires |mem| > 0 && Laid(mem, pos, msgs) && ValidMessage(msg)
    requires Holds(mem, pos + TotalLen(msgs), Record(msg))
    ensures Laid(mem, pos, msgs + [msg])
    ensures TotalLen(msgs + [msg]) == TotalLen(msgs) + ActualLen(|msg|)
    decreases |msgs|
  {
    hide Slot, Record, ActualLen;
    if msgs == [] {
      assert msgs + [msg] == [msg] && [msg][1..] == [];
    } else {
      assert (msgs + [msg])[1..] == msgs[1..] + [msg];
      LaidAppend(mem, pos + ActualLen(|msgs[0]|), msgs[1..], msg);
    }
  }

  /** Writing behind the last record disturbs none of them. */
  lemma WriteBehind(mem: seq<byte>, pos: nat, msgs: seq<Message>, msg: Message)
    requires |mem| > 0 && Laid(mem, pos, msgs) && ValidMessage(msg)
    requires TotalLen(msgs) + ActualLen(|msg|) <= |mem|
    ensures Laid(Overwrite(mem, pos + TotalLen(msgs), Record(msg)), pos, msgs + [msg])
    ensures TotalLen(msgs + [msg]) == TotalLen(msgs) + ActualLen(|msg|)
  {
    hide Slot, Record, Overwrite, Laid, TotalLen;
    var at, size := pos + TotalLen(msgs), |mem|;
    var mem' := Overwrite(mem, at, Record(msg));
    OverwriteHolds(mem, at, Record(msg));
    forall x | pos <= x < at ensures mem'[Slot(x, size)] == mem[Slot(x, size)] {
      assert Slot(x + size, size) == Slot(x, size) by { SlotPeriodic(x, size); }
      assert mem'[Slot(x + size, size)] == mem[Slot(x + size, size)];
    }
    LaidFrame(mem, mem', pos, msgs, at);
    LaidAppend(mem', pos, msgs, msg);
  }

  lemma SlotPeriodic(x: nat, size: nat)
    requires size > 0
    ensures Slot(x + size, size) == Slot(x, size)
  {
    assert x == (x / size) * size + x % size;
    assert (x / size + 1) * size == (x / size) * size + size;
    SlotIs(x + size, x / size + 1, x % size, size);
  }

  class Queue {
    var queue: array?<byte>
    var enqueuePos: nat
    var preEnqueuePos: nat
    var dequeuePos: nat
    var preDequeuePos: nat
    ghost var waiting: seq<Message>

    ghost predicate Valid()
      reads this, queue
    {
      queue == null ||
      (QueueSize(queue.Length) &&
       preEnqueuePos == enqueuePos == dequeuePos + TotalLen(waiting) && preDequeuePos == dequeuePos &&
       dequeuePos % 8 == 0 && TotalLen(waiting) <= queue.Length && Laid(queue[..], dequeuePos, waiting))
    }

    constructor ()
      ensures Valid() && queue == null
    {
      queue := null;
    }

    /** queue.cpp, lines 28-39 */
    static method IsPowerOfTwo(size: nat) returns (r: bool)
      ensures r <==> IsPowerOf2(size)
    {
      var power := 1;
      for i := 0 to 32
        invariant power == Pow2(i)
        invariant forall j: nat :: j < i ==> size != Pow2(j)
      {
        if size == power {
          return true;
        }
        power := 2 * power;
      }
      return false;
    }

    /** queue.cpp, lines 41-65. `memory` says whether malloc gives the buffer. A buffer from an earlier call is
        forgotten, also when there is no memory for the new one. */
    method Init(size: nat, memory: bool) returns (code: int)
      requires Valid()
      modifies this
      ensures code == 0 <==> QueueSize(size) && memory
      ensures code != 0 ==> code == -1
      ensures !QueueSize(size) ==> queue == old(queue) && waiting == old(waiting)
      ensures QueueSize(size) && !memory ==> queue == null
      ensures code == 0 ==> queue != null && fresh(queue) && queue.Length == size && waiting == []
      ensures Valid()
    {
      var power := IsPowerOfTwo(size);
      if size < MIN_QUEUE || size > MAX_QUEUE || !power {
        return -1;
      }
      if !memory {
        queue := null;
        return -1;
      }
      queue := new byte[size];
      enqueuePos, preEnqueuePos, dequeuePos, preDequeuePos := 0, 0, 0, 0;
      waiting := [];
      return 0;
    }

    /** queue.cpp, lines 101-118: the length, refused when it is zero or exceeds 1 GiB. */
    static method GatherLength(src: seq<seq<byte>>) returns (len: nat, ok: bool)
      ensures ok <==> ValidMessage(Flatten(src))
      ensures ok ==> len == |Flatten(src)|
    {
      hide Flatten;
      len := 0;
      assert src[..0] == [];
      FlattenEmpty();
      for i := 0 to |src|
        invariant len == |Flatten(src[..i])| <= MAX_MESSAGE
      {
        FlattenAt(src, i);
        if |src[i]| > MAX_MESSAGE {
          return len, false;
        }
        len := len + |src[i]|;
        if len > MAX_MESSAGE {
          return len, false;
        }
      }
      assert src[..|src|] == src;
      ok := len != 0;
    }

    /** queue.cpp, lines 99-202, without the callback. */
    method Enqueue(src: seq<seq<byte>>) returns (code: int)
      requires Valid() && queue != null
      modifies this, queue
      ensures Valid() && queue == old(queue)
      ensures code == -2 <==> !ValidMessage(Flatten(src))
      ensures code == -1 <==>
        ValidMessage(Flatten(src)) && ActualLen(|Flatten(src)|) > queue.Length - old(TotalLen(waiting))
      ensures code == 0 || code == -1 || code == -2
      ensures waiting == if code == 0 then old(waiting) + [Flatten(src)] else old(waiting)
      ensures code != 0 ==> queue[..] == old(queue[..])
    {
      hide Flatten, Laid, Overwrite, Record, Slot, QueueSize;
      var len, ok := GatherLength(src);
      if !ok {
        return -2;
      }
      var actualLen := ActualLen(len);
      if actualLen > queue.Length - (preEnqueuePos - dequeuePos) {
        return -1;
      }
      var pos := preEnqueuePos;
      preEnqueuePos := pos + actualLen;
      WriteBehind(queue[..], dequeuePos, waiting, Flatten(src));
      FillRecord(queue, pos, src, len);
      enqueuePos := pos + actualLen;
      waiting := waiting + [Flatten(src)];
      return 0;
    }

    /** queue.cpp, lines 209-298. The caller's buffer is `data`; `memory` says whether malloc gives a larger one. */
    method Dequeue(data: array<byte>, memory: bool) returns (code: int, ptr: array?<byte>, len: nat)
      requires Valid() && queue != null && data != queue
      modifies this, data
      ensures Valid() && queue == old(queue)
      ensures code == -1 <==> old(waiting) == []
      ensures code == -1 ==> waiting == old(waiting) && data[..] == old(data[..])
      ensures code != -1 ==> waiting == old(waiting)[1..] && len == |old(waiting)[0]|
      ensures code == -2 <==> old(waiting) != [] && data.Length < |old(waiting)[0]| && !memory
      ensures code == 0 || code == -1 || code == -2
      ensures code == 0 ==> ptr != null && len <= ptr.Length && ptr[..len] == old(waiting)[0]
      ensures code == 0 ==> if data.Length >= |old(waiting)[0]| then ptr == data else fresh(ptr)
    {
      hide Slot, QueueSize, Record, Body, Laid, HeaderAt, ActualLen, ActualLen32, TotalLen;
      var pos := preDequeuePos;
      NothingWaits(waiting);
      if pos == enqueuePos {
        return -1, null, 0;
      }
      NextRecord(queue[..], pos, waiting);
      var slot := ActualPos(pos, queue.Length);
      ActualPosIsSlot(pos, queue.Length);
      len := FromLe32(queue[slot..slot + 4]);
      HeaderIs(queue[..], pos, queue[slot..slot + 4]);
      preDequeuePos := pos + ActualLen32(len);
      if data.Length < len && !memory {
        code, ptr := -2, null;
      } else {
        if data.Length < len {
          ptr := new byte[len];
        } else {
          ptr := data;
        }
        ReadRecord(queue, pos, len, ptr);
        code := 0;
      }
      dequeuePos := pos + ActualLen32(len);
      waiting := waiting[1..];
    }
  }

  lemma NothingWaits(msgs: seq<Message>)
    ensures TotalLen(msgs) == 0 <==> msgs == []
  {
  }

  lemma HeaderIs(mem: seq<byte>, pos: nat, b: seq<byte>)
    requires |mem| > 0 && Slot(pos, |mem|) + 4 <= |mem| && b == mem[Slot(pos, |mem|)..Slot(pos, |mem|) + 4]
    ensures HeaderAt(mem, pos) == FromLe32(b)
  {
  }

  /** What a reader finds at the position of the oldest waiting message. */
  lemma NextRecord(mem: seq<byte>, pos: nat, msgs: seq<Message>)
    requires QueueSize(|mem|) && pos % 8 == 0 && msgs != [] && Laid(mem, pos, msgs) && TotalLen(msgs) <= |mem|
    ensures Slot(pos, |mem|) + 4 <= |mem| && HeaderAt(mem, pos) == |msgs[0]|
    ensures ActualLen32(|msgs[0]|) == ActualLen(|msgs[0]|) <= |mem| && Body(mem, pos, |msgs[0]|) == msgs[0]
    ensures TotalLen(msgs) == ActualLen(|msgs[0]|) + TotalLen(msgs[1..])
    ensures Laid(mem, pos + ActualLen(|msgs[0]|), msgs[1..])
    ensures (pos + ActualLen(|msgs[0]|)) % 8 == 0
  {
    hide Slot, QueueSize, Record, Body, HeaderAt, ActualLen, ActualLen32;
    ReadsBack(mem, pos, msgs[0]);
    ActualLen32Exact(|msgs[0]|);
  }

  lemma FlattenEmpty()
    ensures Flatten<byte>([]) == []
  {
  }
}
