/** The shape of memory_pool.cpp on values: 22 size classes whose LIFO free lists run through the payload
    of the slab, the outstanding cookies, and the four elementary changes that the pool is made of. */
module PoolShape {
  import opened Bytes
  import opened ElementSet

  const BUCKETS: nat := 22
  const SMALL_BLOCK: nat := 0x2_0000
  const MEDIUM_BLOCK: nat := 0x80_0000
  const MEDIUM_DELTA: nat := 0x100_0000
  const SMALL_COUNT_DELTA: nat := 128
  const MAX_POOL: nat := 0x8000_0000

  datatype Bucket = Bucket(blockSize: nat, firstFree: nat, freeCount: nat, totalCount: nat)

  /** A block of memory, and the next free cookie of its bucket. */
  datatype PoolElement = PoolElement(ptr: array?<byte>, next: nat)

  // ------------------------------------------------------------------------------------------------
  // Size classes
  // ------------------------------------------------------------------------------------------------

  /** 1 << (10 + b) */
  function SizeOf(b: nat): nat {
    if b == 0 then 1024 else 2 * SizeOf(b - 1)
  }

  lemma {:induction false} SizesGrow(i: nat, j: nat)
    requires i <= j
    ensures 1024 <= SizeOf(i) <= SizeOf(j)
    ensures i < j ==> 2 * SizeOf(i) <= SizeOf(j)
    decreases j
  {
    if i < j {
      SizesGrow(i, j - 1);
    } else if i > 0 {
      SizesGrow(i - 1, i - 1);
    }
  }

  lemma SizeMarks()
    ensures SizeOf(7) == SMALL_BLOCK && SizeOf(13) == MEDIUM_BLOCK && SizeOf(21) == MAX_POOL
  {
    assert SizeOf(2) == 4 * SizeOf(0);
    assert SizeOf(4) == 4 * SizeOf(2);
    assert SizeOf(6) == 4 * SizeOf(4);
    assert SizeOf(8) == 4 * SizeOf(6);
    assert SizeOf(10) == 4 * SizeOf(8);
    assert SizeOf(12) == 4 * SizeOf(10);
    assert SizeOf(14) == 4 * SizeOf(12);
    assert SizeOf(16) == 4 * SizeOf(14);
    assert SizeOf(18) == 4 * SizeOf(16);
    assert SizeOf(20) == 4 * SizeOf(18);
  }

  /** The blocks of a bucket fall into one of three kinds, told apart by size as the source does. */
  lemma SizeKinds(b: nat)
    requires b < BUCKETS
    ensures 1024 <= SizeOf(b) <= MAX_POOL
    ensures SizeOf(b) <= SMALL_BLOCK <==> b <= 7
    ensures SizeOf(b) <= MEDIUM_BLOCK <==> b <= 13
    ensures SizeOf(b) > MEDIUM_BLOCK ==> SizeOf(b) >= 2 * MEDIUM_BLOCK
    ensures SizeOf(b) == MAX_POOL <==> b == 21
    ensures b < 21 ==> SizeOf(b) <= MAX_POOL / 2
  {
    SizeMarks();
    SizesGrow(if b <= 7 then b else 7, if b <= 7 then 7 else b);
    SizesGrow(if b <= 13 then b else 13, if b <= 13 then 13 else b);
    SizesGrow(b, 21);
  }

  /** The smallest bucket whose blocks hold `size` bytes, or BUCKETS if none does. */
  ghost predicate Fits(size: nat, b: nat) {
    b <= BUCKETS && (b < BUCKETS ==> size <= SizeOf(b)) && forall i: nat | i < b :: SizeOf(i) < size
  }

  lemma FitsUnique(size: nat, b: nat, c: nat)
    requires Fits(size, b) && Fits(size, c)
    ensures b == c
  {
    if b < c {
      assert false;
    } else if c < b {
      assert false;
    }
  }

  lemma FitsWithin(size: nat, b: nat)
    requires Fits(size, b)
    ensures b < BUCKETS <==> size <= MAX_POOL
    ensures b == 21 <==> MAX_POOL / 2 < size <= MAX_POOL
  {
    SizeMarks();
    assert SizeOf(21) == 2 * SizeOf(20);
    if b < BUCKETS {
      SizesGrow(b, 21);
      if b < 21 {
        SizesGrow(b, 20);
      } else {
        assert SizeOf(20) < size;
      }
    } else {
      assert SizeOf(21) < size;
    }
  }

  function CountDelta(blockSize: nat): nat {
    if blockSize <= SMALL_BLOCK then SMALL_COUNT_DELTA
    else if blockSize <= MEDIUM_BLOCK then MEDIUM_DELTA / blockSize
    else 1
  }

  /** How many blocks one expansion of a bucket asks for: 128 small ones, 16 MiB of medium ones, or one big one. */
  function BlocksFor(b: nat): nat {
    if b <= 7 then 128 else if b <= 13 then Pow2(14 - b) else 1
  }

  lemma {:induction false} SizeIsPower(b: nat)
    ensures SizeOf(b) == Pow2(10 + b)
  {
    if b > 0 {
      SizeIsPower(b - 1);
    } else {
      assert Pow2(10) == 4 * Pow2(8) == 16 * Pow2(6) == 64 * Pow2(4) == 256 * Pow2(2) == 1024 * Pow2(0);
    }
  }

  lemma {:induction false} PowersMultiply(m: nat, n: nat)
    ensures Pow2(m) * Pow2(n) == Pow2(m + n)
  {
    if m > 0 {
      PowersMultiply(m - 1, n);
      DoubleFirst(Pow2(m - 1), Pow2(n));
    }
  }

  lemma DoubleFirst(a: nat, b: nat)
    ensures 2 * a * b == 2 * (a * b)
  {
  }

  /** The thresholds and quotients of the source come to that. */
  lemma CountIs(b: nat)
    requires b < BUCKETS
    ensures CountDelta(SizeOf(b)) == BlocksFor(b)
    ensures BlocksFor(b) == if b <= 7 then 128 else if b <= 13 then Pow2(14 - b) else 1
    ensures 8 <= b <= 13 ==> SizeOf(b) * BlocksFor(b) == 0x100_0000
  {
    SizeKinds(b);
    if 8 <= b <= 13 {
      SizeMarks();
      SizeIsPower(b);
      SizeIsPower(13);
      PowersMultiply(14 - b, 10 + b);
      assert Pow2(24) == 2 * Pow2(23);
      QuotientExact(MEDIUM_DELTA, SizeOf(b), Pow2(14 - b));
    }
  }

  lemma QuotientExact(n: nat, d: nat, q: nat)
    requires d > 0 && n == q * d
    ensures n / d == q
  {
    var q', r := n / d, n % d;
    assert n == d * q' + r;
    if q' < q {
      MulMono(d, q' + 1, q);
    } else if q < q' {
      MulMono(d, q + 1, q');
    }
  }

  /** One expansion adds at least one block, at most 16 MiB of small or medium ones, or one big one; the
      32-bit product is exact. */
  lemma DeltaBounds(b: nat)
    requires b < BUCKETS
    ensures CountDelta(SizeOf(b)) == BlocksFor(b) > 0 && SizeOf(b) > 0
    ensures SizeOf(b) * BlocksFor(b) <= (if b <= 13 then MEDIUM_DELTA else SizeOf(b))
    ensures b > 13 ==> BlocksFor(b) == 1
  {
    CountIs(b);
    SizeKinds(b);
    if b <= 7 {
      MulMono(SMALL_COUNT_DELTA, SizeOf(b), SMALL_BLOCK);
    }
  }

  /** How many free blocks recycle_certain gives back; the products are uint32_t. */
  function RecycleCount(k: Bucket, threshold: nat): (n: nat)
    ensures k.blockSize > MEDIUM_BLOCK && k.freeCount == 1 && k.blockSize < UINT32 ==> n == 1
    ensures n <= k.freeCount
  {
    if Wrap32(k.blockSize * k.freeCount) > SMALL_BLOCK * 2 then
      if k.blockSize > MEDIUM_BLOCK then (k.freeCount + 1) / 2
      else if k.freeCount > k.totalCount / 2 || Wrap32(k.blockSize * k.freeCount) > threshold then k.freeCount / 2
      else 0
    else 0
  }

  // ------------------------------------------------------------------------------------------------
  // Shape
  // ------------------------------------------------------------------------------------------------

  function InBucket(home: map<nat, nat>, b: nat): (s: set<nat>)
    ensures forall c :: c in s <==> c in home && home[c] == b
  {
    set c | c in home && home[c] == b
  }

  ghost predicate Linked(data: seq<PoolElement>, list: seq<nat>, j: nat) {
    j < |list| && list[j] < |data| && data[list[j]].next == At(list, j + 1)
  }

  /** The bucket's list is acyclic, runs through the payloads, holds exactly the bucket's blocks that are
      not handed out, and the two counters are right. */
  ghost predicate BucketOk(data: seq<PoolElement>, k: Bucket, list: seq<nat>, home: map<nat, nat>, out: set<nat>,
                           b: nat) {
    k.blockSize == SizeOf(b) && k.firstFree == At(list, 0) &&
    k.freeCount == |list| && k.totalCount == |InBucket(home, b)| &&
    NoDup(list) && (forall j | 0 <= j < |list| :: Linked(data, list, j)) &&
    (forall c: nat :: c in list <==> c in home && home[c] == b && c !in out)
  }

  ghost predicate BlockOk(data: seq<PoolElement>, home: map<nat, nat>, c: nat) {
    c in home && home[c] < BUCKETS && c < |data| && data[c].ptr != null && data[c].ptr.Length == SizeOf(home[c])
  }

  ghost predicate BlocksOk(data: seq<PoolElement>, home: map<nat, nat>) {
    (forall c | c in home :: BlockOk(data, home, c)) &&
    (forall c, d | c in home && d in home && c != d :: data[c].ptr != data[d].ptr)
  }

  /** `home` says to which bucket each used cookie belongs, `out` which are in the hands of callers. */
  ghost predicate PoolOk(data: seq<PoolElement>, ks: seq<Bucket>, lists: seq<seq<nat>>, home: map<nat, nat>,
                         out: set<nat>) {
    |data| < END && |ks| == |lists| == BUCKETS && out <= home.Keys && BlocksOk(data, home) &&
    forall b | 0 <= b < BUCKETS :: BucketOk(data, ks[b], lists[b], home, out, b)
  }

  /** The cookies of bucket b that are in the hands of callers. */
  /** How many of `free` blocks of a bucket one recycling gives back while `held` are in callers' hands. Up to 256 KiB
      may lie idle. Of big blocks half go, rounded up; of others half if more lie idle than are held, or more bytes
      than the threshold. */
  function Surplus(b: nat, free: nat, held: nat, threshold: nat): nat {
    var bytes := Wrap32(SizeOf(b) * free);
    if bytes <= 0x4_0000 then 0
    else if b > 13 then (free + 1) / 2
    else if free > held || bytes > threshold then free / 2
    else 0
  }

  lemma RecycleIsSurplus(data: seq<PoolElement>, ks: seq<Bucket>, lists: seq<seq<nat>>, home: map<nat, nat>,
                         out: set<nat>, b: nat, threshold: nat)
    requires PoolOk(data, ks, lists, home, out) && b < BUCKETS
    ensures RecycleCount(ks[b], threshold) == Surplus(b, |lists[b]|, |HandedOut(home, out, b)|, threshold)
  {
    hide SizeOf, Wrap32;
    CountsAddUp(data, ks, lists, home, out, b);
    SizeKinds(b);
    assert BucketOk(data, ks[b], lists[b], home, out, b);
    MoreThanHalf(|lists[b]|, |HandedOut(home, out, b)|);
  }

  lemma MoreThanHalf(free: nat, held: nat)
    ensures free > (free + held) / 2 <==> free > held
  {
  }

  function HandedOut(home: map<nat, nat>, out: set<nat>, b: nat): (s: set<nat>)
    ensures forall c :: c in s <==> c in out && c in home && home[c] == b
  {
    set c | c in out && c in home && home[c] == b
  }

  /** total = free + outstanding, in every bucket. */
  lemma CountsAddUp(data: seq<PoolElement>, ks: seq<Bucket>, lists: seq<seq<nat>>, home: map<nat, nat>, out: set<nat>,
                    b: nat)
    requires PoolOk(data, ks, lists, home, out) && b < BUCKETS
    ensures ks[b].totalCount == ks[b].freeCount + |HandedOut(home, out, b)|
  {
    assert BucketOk(data, ks[b], lists[b], home, out, b);
    var free, taken := Elements(lists[b]), HandedOut(home, out, b);
    ListCardinality(lists[b]);
    assert InBucket(home, b) == free + taken;
    assert free !! taken;
  }

  function Elements(list: seq<nat>): (s: set<nat>)
    ensures forall c :: c in s <==> c in list
  {
    set c | c in list
  }

  lemma {:induction false} ListCardinality(list: seq<nat>)
    requires NoDup(list)
    ensures |Elements(list)| == |list|
  {
    if list == [] {
      assert Elements(list) == {};
    } else {
      var init, last := list[..|list| - 1], list[|list| - 1];
      ListCardinality(init);
      assert list == init + [last];
      assert Elements(list) == Elements(init) + {last};
    }
  }

  /** A bucket is not affected by what happens to cookies that are not its own. */
  lemma BucketFrame(data: seq<PoolElement>, data': seq<PoolElement>, k: Bucket, list: seq<nat>,
                    home: map<nat, nat>, home': map<nat, nat>, out: set<nat>, out': set<nat>, b: nat)
    requires BucketOk(data, k, list, home, out, b) && |data'| == |data|
    requires forall c | c in list :: c < |data| ==> data'[c] == data[c]
    requires InBucket(home', b) == InBucket(home, b)
    requires forall c: nat :: c in InBucket(home, b) ==> (c in out <==> c in out')
    ensures BucketOk(data', k, list, home', out', b)
  {
    forall j | 0 <= j < |list| ensures Linked(data', list, j) {
      assert Linked(data, list, j);
    }
    forall c: nat ensures c in list <==> c in home' && home'[c] == b && c !in out' {
      assert c in InBucket(home', b) <==> c in InBucket(home, b);
    }
  }

  /** A block that is not in the list is pushed on it. */
  lemma PushedList(data: seq<PoolElement>, list: seq<nat>, first: nat, c: nat, ptr: array?<byte>)
    requires first == At(list, 0) && c < |data| && c !in list && NoDup(list)
    requires forall j | 0 <= j < |list| :: Linked(data, list, j)
    ensures var data' := data[c := PoolElement(ptr, first)];
      NoDup([c] + list) && forall j | 0 <= j < |[c] + list| :: Linked(data', [c] + list, j)
  {
    var data' := data[c := PoolElement(ptr, first)];
    forall j | 0 <= j < |[c] + list| ensures Linked(data', [c] + list, j) {
      if j > 0 {
        assert Linked(data, list, j - 1);
      }
    }
  }

  lemma PoppedList(data: seq<PoolElement>, list: seq<nat>)
    requires list != [] && NoDup(list) && |data| < END
    requires forall j | 0 <= j < |list| :: Linked(data, list, j)
    ensures list[0] < |data| && data[list[0]].next == At(list[1..], 0)
    ensures NoDup(list[1..]) && forall j | 0 <= j < |list[1..]| :: Linked(data, list[1..], j)
    ensures forall c: nat :: c in list[1..] <==> c in list && c != list[0]
  {
    assert Linked(data, list, 0);
    forall j | 0 <= j < |list[1..]| ensures Linked(data, list[1..], j) {
      assert Linked(data, list, j + 1);
    }
    forall c: nat | c in list && c != list[0] ensures c in list[1..] {
      var j :| 0 <= j < |list| && list[j] == c;
      assert list[1..][j - 1] == c;
    }
  }

  // ------------------------------------------------------------------------------------------------
  // The four elementary changes
  // ------------------------------------------------------------------------------------------------

  lemma GrownBucket(data: seq<PoolElement>, k: Bucket, list: seq<nat>, home: map<nat, nat>, out: set<nat>,
                    b: nat, c: nat, ptr: array<byte>)
    requires BucketOk(data, k, list, home, out, b) && c < |data| && c !in home && c !in out
    ensures BucketOk(data[c := PoolElement(ptr, k.firstFree)],
                     k.(firstFree := c, freeCount := k.freeCount + 1, totalCount := k.totalCount + 1),
                     [c] + list, home[c := b], out, b)
  {
    hide SizeOf, Linked, NoDup;
    PushedList(data, list, k.firstFree, c, ptr);
    assert InBucket(home[c := b], b) == InBucket(home, b) + {c};
  }

  /** A new block joins bucket b. */
  lemma GrowOk(data: seq<PoolElement>, ks: seq<Bucket>, lists: seq<seq<nat>>, home: map<nat, nat>, out: set<nat>,
               b: nat, c: nat, ptr: array<byte>)
    requires PoolOk(data, ks, lists, home, out) && b < BUCKETS && c < |data| && c !in home
    requires ptr.Length == SizeOf(b) && forall d | d in home :: d < |data| && data[d].ptr != ptr
    ensures var k := ks[b];
      PoolOk(data[c := PoolElement(ptr, k.firstFree)],
             ks[b := k.(firstFree := c, freeCount := k.freeCount + 1, totalCount := k.totalCount + 1)],
             lists[b := [c] + lists[b]], home[c := b], out)
  {
    hide BucketOk, BlocksOk, SizeOf;
    var k, home' := ks[b], home[c := b];
    var data' := data[c := PoolElement(ptr, k.firstFree)];
    assert BucketOk(data, k, lists[b], home, out, b);
    GrownBucket(data, k, lists[b], home, out, b, c, ptr);
    forall i | 0 <= i < BUCKETS && i != b ensures BucketOk(data', ks[i], lists[i], home', out, i) {
      assert BucketOk(data, ks[i], lists[i], home, out, i);
      assert InBucket(home', i) == InBucket(home, i);
      OtherBucket(data, data', ks[i], lists[i], home, home', out, i, c);
    }
    GrownBlocks(data, home, b, c, PoolElement(ptr, k.firstFree));
  }

  lemma OtherBucket(data: seq<PoolElement>, data': seq<PoolElement>, k: Bucket, list: seq<nat>,
                    home: map<nat, nat>, home': map<nat, nat>, out: set<nat>, b: nat, c: nat)
    requires BucketOk(data, k, list, home, out, b) && c < |data| && c !in home
    requires |data'| == |data| && data' == data[c := data'[c]] && InBucket(home', b) == InBucket(home, b)
    ensures BucketOk(data', k, list, home', out, b)
  {
    hide SizeOf, Linked, NoDup;
    BucketFrame(data, data', k, list, home, home', out, out, b);
  }

  lemma GrownBlocks(data: seq<PoolElement>, home: map<nat, nat>, b: nat, c: nat, e: PoolElement)
    requires BlocksOk(data, home) && b < BUCKETS && c < |data| && c !in home
    requires e.ptr != null && e.ptr.Length == SizeOf(b) && forall d | d in home :: d < |data| && data[d].ptr != e.ptr
    ensures BlocksOk(data[c := e], home[c := b])
  {
    var data', home' := data[c := e], home[c := b];
    forall d | d in home' ensures BlockOk(data', home', d) {
      assert d != c ==> BlockOk(data, home, d);
    }
  }

  /** The first free block of bucket b is handed out. */
  lemma TakeOk(data: seq<PoolElement>, ks: seq<Bucket>, lists: seq<seq<nat>>, home: map<nat, nat>, out: set<nat>,
               b: nat)
    requires PoolOk(data, ks, lists, home, out) && b < BUCKETS && lists[b] != []
    ensures var k, c := ks[b], lists[b][0];
      c == k.firstFree && c < |data| && c in home && home[c] == b && c !in out && k.freeCount > 0 &&
      PoolOk(data, ks[b := k.(firstFree := data[c].next, freeCount := k.freeCount - 1)],
             lists[b := lists[b][1..]], home, out + {c})
  {
    var k, c := ks[b], lists[b][0];
    assert BucketOk(data, k, lists[b], home, out, b);
    assert c in lists[b];
    PoppedList(data, lists[b]);
    forall i | 0 <= i < BUCKETS && i != b ensures BucketOk(data, ks[i], lists[i], home, out + {c}, i) {
      assert BucketOk(data, ks[i], lists[i], home, out, i);
      BucketFrame(data, data, ks[i], lists[i], home, home, out, out + {c}, i);
    }
  }

  /** A block that was handed out comes back to its bucket. */
  lemma GiveOk(data: seq<PoolElement>, ks: seq<Bucket>, lists: seq<seq<nat>>, home: map<nat, nat>, out: set<nat>,
               c: nat)
    requires PoolOk(data, ks, lists, home, out) && c in out
    ensures c in home && home[c] < BUCKETS && c < |data|
    ensures var b := home[c]; var k := ks[b];
      PoolOk(data[c := PoolElement(data[c].ptr, k.firstFree)],
             ks[b := k.(firstFree := c, freeCount := k.freeCount + 1)],
             lists[b := [c] + lists[b]], home, out - {c})
  {
    assert BlockOk(data, home, c);
    var b := home[c];
    var k, out' := ks[b], out - {c};
    var data' := data[c := PoolElement(data[c].ptr, k.firstFree)];
    assert BucketOk(data, k, lists[b], home, out, b);
    PushedList(data, lists[b], k.firstFree, c, data[c].ptr);
    forall i | 0 <= i < BUCKETS && i != b ensures BucketOk(data', ks[i], lists[i], home, out', i) {
      assert BucketOk(data, ks[i], lists[i], home, out, i);
      BucketFrame(data, data', ks[i], lists[i], home, home, out, out', i);
    }
    assert BlocksOk(data', home) by {
      forall d | d in home ensures BlockOk(data', home, d) { assert BlockOk(data, home, d); }
    }
  }

  /** The first free block of bucket b goes back to the system. */
  lemma ShrinkOk(data: seq<PoolElement>, ks: seq<Bucket>, lists: seq<seq<nat>>, home: map<nat, nat>, out: set<nat>,
                 b: nat)
    requires PoolOk(data, ks, lists, home, out) && b < BUCKETS && lists[b] != []
    ensures var k, c := ks[b], lists[b][0];
      c == k.firstFree && c < |data| && c in home && c !in out && k.freeCount > 0 && k.totalCount > 0 &&
      PoolOk(data, ks[b := k.(firstFree := data[c].next, freeCount := k.freeCount - 1, totalCount := k.totalCount - 1)],
             lists[b := lists[b][1..]], home - {c}, out)
  {
    var k, c := ks[b], lists[b][0];
    var home' := home - {c};
    assert BucketOk(data, k, lists[b], home, out, b);
    assert c in lists[b];
    PoppedList(data, lists[b]);
    assert InBucket(home', b) == InBucket(home, b) - {c};
    forall i | 0 <= i < BUCKETS && i != b ensures BucketOk(data, ks[i], lists[i], home', out, i) {
      assert BucketOk(data, ks[i], lists[i], home, out, i);
      assert InBucket(home', i) == InBucket(home, i);
      BucketFrame(data, data, ks[i], lists[i], home, home', out, out, i);
    }
    assert BlocksOk(data, home') by {
      forall d | d in home' ensures BlockOk(data, home', d) { assert BlockOk(data, home, d); }
    }
  }

  // ------------------------------------------------------------------------------------------------
  // Bytes
  // ------------------------------------------------------------------------------------------------

  /** The bytes of all blocks, handed out or not. */
  function Total(ks: seq<Bucket>): nat {
    if ks == [] then 0 else ks[0].blockSize * ks[0].totalCount + Total(ks[1..])
  }

  lemma {:induction false} TotalUpdate(ks: seq<Bucket>, b: nat, k: Bucket)
    requires b < |ks|
    ensures Total(ks[b := k]) == Total(ks) - ks[b].blockSize * ks[b].totalCount + k.blockSize * k.totalCount
  {
    if b == 0 {
      assert ks[b := k][1..] == ks[1..];
    } else {
      assert ks[b := k][1..] == ks[1..][b - 1 := k];
      TotalUpdate(ks[1..], b - 1, k);
    }
  }

  lemma {:induction false} TotalHolds(ks: seq<Bucket>, b: nat)
    requires b < |ks|
    ensures ks[b].blockSize * ks[b].totalCount <= Total(ks)
  {
    if b > 0 {
      TotalHolds(ks[1..], b - 1);
    }
  }

  /** Within budget the product that recycling computes on uint32_t, for the free blocks of one bucket, is exact. */
  lemma RecycleExact(data: seq<PoolElement>, ks: seq<Bucket>, lists: seq<seq<nat>>, home: map<nat, nat>,
                     out: set<nat>, b: nat)
    requires PoolOk(data, ks, lists, home, out) && b < BUCKETS && Total(ks) <= MAX_POOL
    ensures Wrap32(ks[b].blockSize * ks[b].freeCount) == ks[b].blockSize * ks[b].freeCount
  {
    hide Total;
    CountsAddUp(data, ks, lists, home, out, b);
    TotalHolds(ks, b);
    MulMono(ks[b].blockSize, ks[b].freeCount, ks[b].totalCount);
  }

  /** How many blocks recycling every bucket once gives back, and how many bytes. */
  function RecycledBlocks(ks: seq<Bucket>, threshold: nat): nat {
    if ks == [] then 0
    else RecycledBlocks(ks[..|ks| - 1], threshold) + RecycleCount(ks[|ks| - 1], threshold)
  }

  function RecycledBytes(ks: seq<Bucket>, threshold: nat): nat {
    if ks == [] then 0
    else
      var k := ks[|ks| - 1];
      RecycledBytes(ks[..|ks| - 1], threshold) + BytesOf(k, RecycleCount(k, threshold))
  }

  function BytesOf(k: Bucket, n: nat): nat {
    k.blockSize * n
  }

  lemma OneMoreRecycled(ks: seq<Bucket>, b: nat, threshold: nat)
    requires b < |ks|
    ensures RecycledBlocks(ks[..b + 1], threshold) ==
      RecycledBlocks(ks[..b], threshold) + RecycleCount(ks[b], threshold)
    ensures RecycledBytes(ks[..b + 1], threshold) ==
      RecycledBytes(ks[..b], threshold) + ks[b].blockSize * RecycleCount(ks[b], threshold)
  {
    hide RecycleCount;
    assert ks[..b + 1][..b] == ks[..b];
  }

  /** Whether an expansion by delta bytes must recycle first. */
  predicate Recycles(ks: seq<Bucket>, delta: nat) {
    Wrap32(Total(ks) + delta) > MAX_POOL
  }

  /** The blocks and bytes that an expansion by delta bytes gives back first. */
  function BlocksBack(ks: seq<Bucket>, delta: nat): nat {
    if Recycles(ks, delta) then RecycledBlocks(ks, MEDIUM_DELTA) else 0
  }

  function BytesBack(ks: seq<Bucket>, delta: nat): nat {
    if Recycles(ks, delta) then RecycledBytes(ks, MEDIUM_DELTA) else 0
  }

  /** Whether it passes the test after that. */
  predicate Admitted(ks: seq<Bucket>, delta: nat) {
    Wrap32(Total(ks) - BytesBack(ks, delta) + delta) <= MAX_POOL
  }

  /** The two 32-bit tests of expand_pool, with what recycling and filling do between and after them.
      `grown` bytes of blocks of `size` bytes are added to a pool of `total` that has come down from
      `first`; `delta` was asked for. */
  lemma BudgetAfter(first: nat, total: nat, recycled: bool, delta: nat, size: nat, grown: nat)
    requires total <= first <= MAX_POOL && delta <= MAX_POOL && (!recycled ==> total == first)
    requires recycled ==> Wrap32(first + delta) > MAX_POOL
    requires Wrap32(total + delta) <= MAX_POOL
    requires grown <= delta && (grown > 0 ==> grown >= size) && size <= MAX_POOL
    requires delta == MAX_POOL ==> size == MAX_POOL
    ensures total + grown <= MAX_POOL <==> !(grown > 0 && delta == MAX_POOL && first == MAX_POOL)
  {
    if first + delta == UINT32 {
      assert Wrap32(UINT32) == 0;
    }
  }

  // ------------------------------------------------------------------------------------------------
  // Idle memory
  // ------------------------------------------------------------------------------------------------

  /** No big block lies idle, and of each smaller size at most 1 GiB does. */
  ghost predicate IdleOk(k: Bucket) {
    if k.blockSize > MEDIUM_BLOCK then k.freeCount == 0 else k.blockSize * k.freeCount <= MAX_POOL / 2
  }

  lemma MulMono(size: nat, m: nat, n: nat)
    requires m <= n
    ensures size * m <= size * n
  {
    assert size * n == size * m + size * (n - m);
  }

  /** Recycling once after a block has come back restores the bound. */
  lemma ReleaseKeepsIdle(k: Bucket, b: nat)
    requires b < BUCKETS && k.blockSize == SizeOf(b) && k.freeCount > 0 && IdleOk(k.(freeCount := k.freeCount - 1))
    ensures IdleOk(k.(freeCount := k.freeCount - RecycleCount(k, MAX_POOL / 2)))
  {
    SizeKinds(b);
    LessFree(k.blockSize, k.freeCount);
    if k.blockSize <= MEDIUM_BLOCK {
      if k.blockSize * k.freeCount > MAX_POOL / 2 {
        HalfRecycled(k);
      } else {
        MulMono(k.blockSize, k.freeCount - RecycleCount(k, MAX_POOL / 2), k.freeCount);
      }
    }
  }

  lemma LessFree(size: nat, n: nat)
    requires n > 0
    ensures size * n == size * (n - 1) + size
  {
  }

  lemma AtLeastTwo(size: nat, n: nat)
    requires size <= MEDIUM_BLOCK && size * n > MAX_POOL / 2
    ensures n >= 2
  {
    assert size * 0 == 0 && size * 1 == size;
  }

  lemma HalfRecycled(k: Bucket)
    requires 0 < k.blockSize <= MEDIUM_BLOCK && k.freeCount > 0
    requires MAX_POOL / 2 < k.blockSize * k.freeCount && k.blockSize * (k.freeCount - 1) <= MAX_POOL / 2
    ensures k.blockSize * (k.freeCount - RecycleCount(k, MAX_POOL / 2)) <= MAX_POOL / 2
  {
    LessFree(k.blockSize, k.freeCount);
    AtLeastTwo(k.blockSize, k.freeCount);
    assert RecycleCount(k, MAX_POOL / 2) == k.freeCount / 2;
    MulMono(k.blockSize, k.freeCount - k.freeCount / 2, k.freeCount - 1);
  }
}
