/** How records lie in the ring of queue.cpp: sizes, headers, slots, and the arithmetic that keeps
    two records apart. Used by the concurrent protocol and by the array code alike. */
module RingLayout {
  import opened Bytes

  const HEADER: nat := 8
  const MAX_MESSAGE: nat := 0x4000_0000
  const MIN_QUEUE: nat := 1024
  const MAX_QUEUE: nat := 0xC000_0000

  type Message = seq<byte>

  predicate ValidMessage(msg: Message) {
    0 < |msg| <= MAX_MESSAGE
  }

  ghost predicate IsPowerOf2(n: int) {
    exists i: nat :: i < 32 && n == Pow2(i)
  }

  /** The sizes that queue_t::init accepts. */
  ghost predicate QueueSize(size: nat) {
    MIN_QUEUE <= size <= MAX_QUEUE && IsPowerOf2(size)
  }

  function RoundUp(len: nat): nat {
    (len + HEADER - 1) / HEADER * HEADER
  }

  /** Bytes of ring that a message of `len` bytes takes. */
  function ActualLen(len: nat): (n: nat)
    ensures n % 8 == 0 && HEADER + len <= n < 2 * HEADER + len
  {
    RoundUp(len) + HEADER
  }

  /** The same computed on uint32_t, as the source does on a header it may have read too late. */
  function ActualLen32(len: nat): nat {
    Wrap32(Wrap32(len + HEADER - 1) / HEADER * HEADER + HEADER)
  }

  function Header(len: nat): (h: seq<byte>)
    requires len < UINT32
    ensures |h| == HEADER
  {
    Le32(len) + [0, 0, 0, 0]
  }

  function Record(msg: Message): (r: seq<byte>)
    requires ValidMessage(msg)
    ensures |r| == HEADER + |msg| <= ActualLen(|msg|)
  {
    Header(|msg|) + msg
  }

  function Slot(pos: nat, size: nat): (i: nat)
    requires size > 0
    ensures i < size
  {
    pos % size
  }

  /** The bytes `rec` lie in `mem` from position `pos` on, wrapping at the end. */
  ghost predicate Holds(mem: seq<byte>, pos: nat, rec: seq<byte>)
    requires |mem| > 0
  {
    forall o :: 0 <= o < |rec| ==> mem[Slot(pos + o, |mem|)] == rec[o]
  }

  /** No overflow hides in the 32-bit size computation for a message the queue accepts. */
  lemma ActualLen32Exact(len: nat)
    requires len <= MAX_MESSAGE
    ensures ActualLen32(len) == ActualLen(len)
  {
  }

  lemma MulAtLeast(k: int, size: int)
    requires k >= 1 && size > 0
    ensures k * size >= size
  {
    assert k * size == (k - 1) * size + size;
  }

  /** Quotient and remainder are determined by the equation they satisfy. */
  lemma DivisionUnique(q1: int, r1: int, q2: int, r2: int, size: int)
    requires 0 <= r1 < size && 0 <= r2 < size
    requires q1 * size + r1 == q2 * size + r2
    ensures q1 == q2 && r1 == r2
  {
    assert (q1 - q2) * size == r2 - r1;
    if q1 > q2 {
      MulAtLeast(q1 - q2, size);
    } else if q1 < q2 {
      assert (q2 - q1) * size == r1 - r2;
      MulAtLeast(q2 - q1, size);
    }
  }

  lemma SlotIs(n: nat, q: int, r: int, size: nat)
    requires 0 <= r < size && n == q * size + r
    ensures Slot(n, size) == r
  {
    assert n == (n / size) * size + n % size;
    DivisionUnique(n / size, n % size, q, r, size);
  }

  /** Two positions less than a whole ring apart never share a slot. */
  lemma SlotsDiffer(a: nat, b: nat, size: nat)
    requires size > 0 && a != b && a < b + size && b < a + size
    ensures Slot(a, size) != Slot(b, size)
  {
    if Slot(a, size) == Slot(b, size) {
      var qa, qb := a / size, b / size;
      assert a == qa * size + a % size;
      assert b == qb * size + b % size;
      assert (qa - qb) * size == a - b;
      if qa > qb {
        MulAtLeast(qa - qb, size);
      } else if qa < qb {
        assert (qb - qa) * size == b - a;
        MulAtLeast(qb - qa, size);
      }
    }
  }

  lemma SlotUnwrapped(base: nat, o: nat, size: nat)
    requires size > 0 && Slot(base, size) + o < size
    ensures Slot(base + o, size) == Slot(base, size) + o
  {
    assert base == (base / size) * size + base % size;
    SlotIs(base + o, base / size, Slot(base, size) + o, size);
  }

  lemma SlotWrapped(base: nat, o: nat, size: nat)
    requires size > 0 && size <= Slot(base, size) + o < 2 * size
    ensures Slot(base + o, size) == Slot(base, size) + o - size
  {
    var q := base / size;
    assert base == q * size + base % size;
    assert (q + 1) * size == q * size + size;
    SlotIs(base + o, q + 1, Slot(base, size) + o - size, size);
  }

  lemma {:induction false} PowersOfTwo(i: nat)
    ensures i >= 3 ==> Pow2(i) % 8 == 0
    ensures i < 3 ==> Pow2(i) <= 4
  {
    if i > 3 {
      PowersOfTwo(i - 1);
      TwiceMultiple(Pow2(i - 1));
    } else {
      assert Pow2(0) == 1 && Pow2(1) == 2 * Pow2(0) && Pow2(2) == 2 * Pow2(1) && Pow2(3) == 2 * Pow2(2);
    }
  }

  lemma TwiceMultiple(n: nat)
    requires n % 8 == 0
    ensures 2 * n % 8 == 0
  {
  }

  lemma AlignedRemainder(pos: nat, m: nat)
    requires m > 0 && pos % 8 == 0
    ensures pos % (8 * m) % 8 == 0
  {
    var q := pos / (8 * m);
    assert pos == (8 * m) * q + pos % (8 * m);
    assert (8 * m) * q == 8 * (m * q);
    assert pos % (8 * m) == 8 * (pos / 8 - m * q);
  }

  /** A queue size is a multiple of the header size, so an aligned position stays aligned when masked
      and a header never straddles the end of the ring. */
  lemma AlignedSlot(pos: nat, size: nat)
    requires QueueSize(size) && pos % 8 == 0
    ensures size % 8 == 0
    ensures Slot(pos, size) % 8 == 0
    ensures Slot(pos, size) + HEADER <= size
  {
    var i: nat :| i < 32 && size == Pow2(i);
    PowersOfTwo(i);
    assert size == 8 * (size / 8);
    AlignedRemainder(pos, size / 8);
  }

  /** The machine's `&` on unsigned words, bit by bit. */
  function BitAnd(a: nat, b: nat): nat {
    if a == 0 || b == 0 then 0 else (a % 2) * (b % 2) + 2 * BitAnd(a / 2, b / 2)
  }

  lemma HalfSlot(pos: nat, half: nat)
    requires half > 0
    ensures Slot(pos, 2 * half) == 2 * Slot(pos / 2, half) + pos % 2
  {
    var q, r := pos / 2 / half, Slot(pos / 2, half);
    assert pos / 2 == q * half + r;
    assert q * (2 * half) == 2 * (q * half);
    SlotIs(pos, q, 2 * r + pos % 2, 2 * half);
  }

  lemma AndOdd(pos: nat, low: nat)
    ensures BitAnd(pos, 2 * low + 1) == pos % 2 + 2 * BitAnd(pos / 2, low)
  {
    assert (2 * low + 1) % 2 == 1 && (2 * low + 1) / 2 == low;
  }

  /** ACTUAL_POS masks a cursor with size - 1; for a power of two that is the remainder. */
  lemma {:induction false} MaskIsModulo(pos: nat, i: nat)
    ensures Pow2(i) > 0 && BitAnd(pos, Pow2(i) - 1) == Slot(pos, Pow2(i))
  {
    PowersOfTwo(i);
    if i > 0 {
      var half := Pow2(i - 1);
      MaskIsModulo(pos / 2, i - 1);
      AndOdd(pos, half - 1);
      HalfSlot(pos, half);
    }
  }
}
