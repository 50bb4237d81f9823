/** memory_pool.cpp: the pool of blocks in 22 size classes. */
module MemoryPool {
  import opened Bytes
  import opened ElementSet
  import opened PoolShape

  class MemoryPool {
    const elements: ElementSet<PoolElement>
    const buckets: array<Bucket>
    /** m_allocated_size, a uint32_t */
    var allocatedSize: nat
    /** The LIFO free list of each bucket. */
    ghost var lists: seq<seq<nat>>
    /** The bucket of each cookie that has a block. */
    ghost var home: map<nat, nat>
    /** The cookies in the hands of callers. */
    ghost var out: set<nat>
    /** Every block the pool ever took from malloc. */
    ghost var blocks: set<array<byte>>

    ghost predicate Valid()
      reads this, buckets, elements, elements.elems
    {
      elements.Valid() && elements.elems != null && buckets.Length == |lists| == BUCKETS &&
      Shape(elements.Data(), buckets[..], lists, home, out, elements.usedList, blocks, allocatedSize)
    }

    /** What every bucket says about its list. */
    lemma Counts()
      requires Valid()
      ensures allocatedSize == Wrap32(Total(buckets[..]))
      ensures forall b | 0 <= b < BUCKETS :: Told(buckets[b], lists[b], b)
    {
      BucketsTold(elements.Data(), buckets[..], lists, home, out);
    }

    /** What the pool holds stays within 2 GiB, so that m_allocated_size is exact. */
    ghost predicate InBudget()
      reads this, buckets
    {
      Total(buckets[..]) <= MAX_POOL
    }

    ghost predicate Idle()
      reads this, buckets
    {
      forall b | 0 <= b < buckets.Length :: IdleOk(buckets[b])
    }

    /** Who holds what: each outstanding cookie with its bucket and its block. */
    ghost function Held(): map<nat, (nat, array?<byte>)>
      requires elements.elems != null
      reads this, elements, elements.elems
    {
      HeldOf(elements.Data(), home, out)
    }

    /** No block is in two hands. */
    lemma HeldBlocksDiffer()
      requires Valid()
      ensures forall c, d | c in Held() && d in Held() && c != d :: Held()[c].1 != Held()[d].1
    {
    }

    constructor ()
      ensures fresh(elements) && elements.elems == null && elements.Valid()
      ensures fresh(buckets) && buckets.Length == BUCKETS
    {
      elements := new ElementSet<PoolElement>();
      buckets := new Bucket[BUCKETS];
      allocatedSize := 0;
      lists, home, out, blocks := [], map[], {}, {};
    }

    /** memory_pool.cpp, lines 24-30 */
    method InitBuckets()
      requires buckets.Length == BUCKETS
      modifies buckets
      ensures forall b | 0 <= b < BUCKETS :: buckets[b] == Bucket(SizeOf(b), END, 0, 0)
    {
      var size := 1024;
      for i := 0 to BUCKETS
        invariant size == SizeOf(i)
        invariant forall j | 0 <= j < i :: buckets[j] == Bucket(SizeOf(j), END, 0, 0)
      {
        buckets[i] := Bucket(size, END, 0, 0);
        size := 2 * size;
      }
    }

    /** memory_pool.cpp, lines 17-35. A second call on a pool in use fails and changes nothing. */
    method Init(maxBlockCount: nat, memory: bool) returns (code: int)
      requires (elements.elems == null && elements.Valid() && buckets.Length == BUCKETS) || Valid()
      modifies this, buckets, elements
      ensures code == 0 <==> old(elements.elems) == null && maxBlockCount != 0 && maxBlockCount < UINT_MAX && memory
      ensures code != 0 ==> code == -1 && elements.elems == old(elements.elems) && buckets[..] == old(buckets[..])
      ensures code != 0 && old(elements.elems) != null ==> Valid() && out == old(out) && Held() == old(Held())
      ensures code == 0 ==> Valid() && fresh(elements.elems) && out == {} && home == map[] && InBudget() && Idle()
      ensures code == 0 ==> blocks == {} && allocatedSize == 0 && forall b | 0 <= b < BUCKETS :: lists[b] == []
      ensures code == 0 ==> Total(buckets[..]) == 0 && elements.elems.Length == maxBlockCount
      ensures code == 0 ==> elements.freeList == seq(maxBlockCount, i => i)
    {
      hide Shape, Total, IdleOk, FreeChain, UsedChain, HeldOf, SizeOf;
      code := elements.Init(maxBlockCount, memory);
      if code == -1 {
        return -1;
      }
      InitBuckets();
      allocatedSize := 0;
      lists, home, out, blocks := seq(BUCKETS, _ => []), map[], {}, {};
      EmptyPool(elements.Data(), buckets[..], elements.usedList);
      return 0;
    }

    /** memory_pool.cpp, lines 50-62 */
    method GetFitSize(size: nat) returns (fit: nat, b: nat)
      requires Valid()
      ensures Fits(size, b)
      ensures fit == if b < BUCKETS then SizeOf(b) else UINT_MAX
    {
      hide Shape, Total, SizeOf;
      Counts();
      for i := 0 to BUCKETS
        invariant forall j: nat | j < i :: SizeOf(j) < size
      {
        if size <= buckets[i].blockSize {
          return buckets[i].blockSize, i;
        }
      }
      return UINT_MAX, BUCKETS;
    }

    /** memory_pool.cpp, lines 101-109: the first free block of a bucket goes back to the system. */
    method RecycleOne(b: nat)
      requires Valid() && b < BUCKETS && lists[b] != []
      modifies this, buckets, elements, elements.elems
      ensures Valid() && elements.elems == old(elements.elems)
      ensures out == old(out) && blocks == old(blocks) && lists == old(lists)[b := old(lists)[b][1..]]
      ensures home == old(home) - {old(lists)[b][0]}
      ensures |elements.freeList| == |old(elements.freeList)| + 1
      ensures elements.Data() == old(elements.Data()) && Held() == old(Held())
      ensures buckets[b].blockSize == old(buckets[b]).blockSize
      ensures forall i | 0 <= i < BUCKETS && i != b :: buckets[i] == old(buckets[i])
      ensures Total(buckets[..]) == old(Total(buckets[..])) - SizeOf(b)
    {
      hide Shape, Total, Wrap32, SizeOf, HeldOf, FreeChain, UsedChain, RemovedFrom, NoDup;
      ghost var ks, used := buckets[..], elements.usedList;
      ShapeHead(elements.Data(), ks, lists, home, out, used, blocks, allocatedSize, b);
      var k := buckets[b];
      var c := k.firstFree;
      var next := elements.elems[c].data.next;
      elements.UsedDistinct();
      var _ := elements.PutElem(c);
      ShapeShrinks(elements.Data(), ks, lists, home, out, used, elements.usedList, blocks, allocatedSize, b);
      buckets[b] := Bucket(k.blockSize, next, k.freeCount - 1, k.totalCount - 1);
      allocatedSize := Wrap32(allocatedSize - k.blockSize);
      home := home - {c};
      lists := lists[b := lists[b][1..]];
    }

    /** memory_pool.cpp, lines 80-111 */
    method RecycleCertain(b: nat, threshold: nat)
      requires Valid() && b < BUCKETS
      modifies this, buckets, elements, elements.elems
      ensures Valid() && elements.elems == old(elements.elems)
      ensures out == old(out) && blocks == old(blocks) && elements.Data() == old(elements.Data())
      ensures Held() == old(Held())
      ensures home.Keys <= old(home).Keys && forall c | c in home :: home[c] == old(home)[c]
      ensures |elements.freeList| == |old(elements.freeList)| + RecycleCount(old(buckets[b]), threshold)
      ensures RecycleCount(old(buckets[b]), threshold) ==
        Surplus(b, |old(lists)[b]|, |HandedOut(old(home), old(out), b)|, threshold)
      ensures var n := RecycleCount(old(buckets[b]), threshold);
        n <= |old(lists)[b]| && lists == old(lists)[b := old(lists)[b][n..]] &&
        Total(buckets[..]) == old(Total(buckets[..])) - SizeOf(b) * n
      ensures buckets[b].blockSize == old(buckets[b]).blockSize
      ensures forall i | 0 <= i < BUCKETS && i != b :: buckets[i] == old(buckets[i])
    {
      hide Shape, Total, Wrap32, SizeOf, RecycleCount, HeldOf, FreeChain, UsedChain, Surplus, HandedOut;
      Counts();
      ShapeRecycles(elements.Data(), buckets[..], lists, home, out, elements.usedList, blocks, allocatedSize, b,
        threshold);
      var recycleCount := RecycleCount(buckets[b], threshold);
      var j := 0;
      while j < recycleCount && buckets[b].firstFree != END
        invariant Valid() && elements.elems == old(elements.elems)
        invariant out == old(out) && elements.Data() == old(elements.Data()) && Held() == old(Held())
        invariant blocks == old(blocks)
        invariant |elements.freeList| == |old(elements.freeList)| + j
        invariant home.Keys <= old(home).Keys && forall c | c in home :: home[c] == old(home)[c]
        invariant j <= recycleCount <= |old(lists)[b]| && lists == old(lists)[b := old(lists)[b][j..]]
        invariant Total(buckets[..]) == old(Total(buckets[..])) - SizeOf(b) * j
        invariant buckets[b].blockSize == old(buckets[b]).blockSize
        invariant forall i | 0 <= i < BUCKETS && i != b :: buckets[i] == old(buckets[i])
      {
        Counts();
        RecycleOne(b);
        OneMoreTimes(SizeOf(b), j);
        j := j + 1;
      }
      Counts();
    }

    /** memory_pool.cpp, lines 145-167: a fresh block joins a bucket, if the slab has an element for it. */
    method GrowOne(b: nat, ptr: array<byte>) returns (c: nat)
      requires Valid() && b < BUCKETS && ptr.Length == SizeOf(b) && ptr !in blocks
      modifies this, buckets, elements, elements.elems
      ensures Valid() && elements.elems == old(elements.elems)
      ensures out == old(out) && Held() == old(Held())
      ensures blocks == if c == END then old(blocks) else old(blocks) + {ptr}
      ensures c == END <==> old(elements.freeList) == []
      ensures |elements.freeList| == |old(elements.freeList)| - if c == END then 0 else 1
      ensures c == END ==> lists == old(lists) && buckets[..] == old(buckets[..])
      ensures c != END ==> c !in old(home) && lists == old(lists)[b := [c] + old(lists)[b]]
      ensures buckets[b].blockSize == old(buckets[b]).blockSize
      ensures forall i | 0 <= i < BUCKETS && i != b :: buckets[i] == old(buckets[i])
      ensures Total(buckets[..]) == old(Total(buckets[..])) + if c != END then SizeOf(b) else 0
    {
      hide Shape, Total, Wrap32, SizeOf, HeldOf, FreeChain, UsedChain, NoDup;
      ghost var ks, data, used := buckets[..], elements.Data(), elements.usedList;
      elements.FreeAreNotUsed();
      c := elements.GetElem();
      if c == END {
        return;
      }
      var k := buckets[b];
      elements.SetData(c, PoolElement(ptr, k.firstFree));
      ShapeGrows(data, ks, lists, home, out, used, blocks, allocatedSize, b, c, ptr);
      buckets[b] := Bucket(k.blockSize, c, k.freeCount + 1, k.totalCount + 1);
      allocatedSize := Wrap32(allocatedSize + k.blockSize);
      home := home[c := b];
      blocks := blocks + {ptr};
      lists := lists[b := [c] + lists[b]];
    }

    /** memory_pool.cpp, lines 119-122 */
    method RecycleAll(threshold: nat)
      requires Valid()
      modifies this, buckets, elements, elements.elems
      ensures Valid() && elements.elems == old(elements.elems)
      ensures out == old(out) && Held() == old(Held()) && blocks == old(blocks)
      ensures Total(buckets[..]) == old(Total(buckets[..])) - RecycledBytes(old(buckets[..]), threshold)
      ensures |elements.freeList| == |old(elements.freeList)| + RecycledBlocks(old(buckets[..]), threshold)
      ensures forall i | 0 <= i < BUCKETS :: FewerFree(buckets[i], old(buckets[i]))
    {
      hide Shape, Total, Wrap32, SizeOf, RecycleCount, HeldOf, FreeChain, UsedChain, RecycledBytes, RecycledBlocks;
      ghost var ks := buckets[..];
      NoneRecycled(ks, threshold);
      for b := 0 to BUCKETS
        invariant Valid() && elements.elems == old(elements.elems)
        invariant out == old(out) && Held() == old(Held()) && blocks == old(blocks)
        invariant Total(buckets[..]) == Total(ks) - RecycledBytes(ks[..b], threshold)
        invariant |elements.freeList| == |old(elements.freeList)| + RecycledBlocks(ks[..b], threshold)
        invariant forall i | 0 <= i < BUCKETS :: FewerFree(buckets[i], ks[i])
        invariant forall i | b <= i < BUCKETS :: buckets[i] == ks[i]
      {
        Counts();
        OneMoreRecycled(ks, b, threshold);
        RecycleCertain(b, threshold);
        Counts();
      }
      assert ks[..BUCKETS] == ks;
    }

    /** memory_pool.cpp, lines 130-170. `mallocs` is how many calls of malloc succeed before one fails. */
    method Fill(b: nat, delta: nat, mallocs: nat) returns (code: int)
      requires Valid() && b < BUCKETS && lists[b] == [] && delta > 0
      modifies this, buckets, elements, elements.elems
      ensures Valid() && elements.elems == old(elements.elems)
      ensures out == old(out) && Held() == old(Held()) && old(blocks) <= blocks && fresh(blocks - old(blocks))
      ensures code == 0 || code == -1
      ensures code == 0 <==> lists[b] != []
      ensures |lists[b]| == Least(delta, mallocs, |old(elements.freeList)|)
      ensures |elements.freeList| == |old(elements.freeList)| - |lists[b]|
      ensures forall i | 0 <= i < BUCKETS && i != b :: buckets[i] == old(buckets[i])
      ensures Total(buckets[..]) == old(Total(buckets[..])) + SizeOf(b) * |lists[b]|
    {
      hide Shape, Total, Wrap32, SizeOf, HeldOf, FreeChain, UsedChain;
      Counts();
      var i: nat := 0;
      while i < delta
        invariant Valid() && elements.elems == old(elements.elems)
        invariant out == old(out) && Held() == old(Held()) && old(blocks) <= blocks && fresh(blocks - old(blocks))
        invariant i <= delta && |lists[b]| == i && buckets[b].blockSize == SizeOf(b)
        invariant forall j | 0 <= j < BUCKETS && j != b :: buckets[j] == old(buckets[j])
        invariant Total(buckets[..]) == old(Total(buckets[..])) + SizeOf(b) * i
        invariant |elements.freeList| == |old(elements.freeList)| - i
        invariant i <= mallocs
      {
        if i >= mallocs {
          return if i == 0 then -1 else 0;
        }
        var ptr := new byte[buckets[b].blockSize];
        var c := GrowOne(b, ptr);
        if c == END {
          return if i == 0 then -1 else 0;
        }
        OneMoreTimes(SizeOf(b), i);
        i := i + 1;
      }
      return 0;
    }

    /** memory_pool.cpp, lines 117-128: may the pool grow by sizeDelta bytes, after idle blocks went back if need
        be? The sums are uint32_t. */
    method Admit(sizeDelta: nat) returns (ok: bool)
      requires Valid()
      modifies this, buckets, elements, elements.elems
      ensures Valid() && elements.elems == old(elements.elems)
      ensures out == old(out) && Held() == old(Held()) && blocks == old(blocks)
      ensures ok <==> Admitted(old(buckets[..]), sizeDelta)
      ensures Total(buckets[..]) == old(Total(buckets[..])) - BytesBack(old(buckets[..]), sizeDelta)
      ensures |elements.freeList| == |old(elements.freeList)| + BlocksBack(old(buckets[..]), sizeDelta)
      ensures forall i | 0 <= i < BUCKETS :: FewerFree(buckets[i], old(buckets[i]))
    {
      hide Shape, Total, SizeOf, HeldOf, Wrap32, FreeChain, UsedChain;
      Counts();
      WrapUp(Total(buckets[..]), sizeDelta);
      if Wrap32(allocatedSize + sizeDelta) > MAX_POOL {
        RecycleAll(MEDIUM_DELTA);
      }
      Counts();
      WrapUp(Total(buckets[..]), sizeDelta);
      ok := Wrap32(allocatedSize + sizeDelta) <= MAX_POOL;
    }

    /** memory_pool.cpp, lines 113-171. The state before the call tells how many blocks come, and so why none do. The
        budget holds afterwards exactly unless a 2 GiB block can be added to a pool that already holds 2 GiB: then the
        sum wraps to zero and nothing stops it. */
    method ExpandPool(blockSize: nat, b: nat, mallocs: nat) returns (code: int)
      requires Valid() && b < BUCKETS && blockSize == SizeOf(b) && lists[b] == []
      modifies this, buckets, elements, elements.elems
      ensures Valid() && elements.elems == old(elements.elems)
      ensures out == old(out) && Held() == old(Held()) && old(blocks) <= blocks && fresh(blocks - old(blocks))
      ensures code == 0 || code == -1
      ensures code == 0 <==> lists[b] != []
      ensures |lists[b]| == Added(b, old(buckets[..]), mallocs, |old(elements.freeList)|)
      ensures |elements.freeList| ==
        |old(elements.freeList)| + BlocksBack(old(buckets[..]), Delta(b)) - |lists[b]|
      ensures forall i | 0 <= i < BUCKETS && i != b :: FewerFree(buckets[i], old(buckets[i]))
      ensures old(InBudget()) ==> (InBudget() <==>
        !(b == 21 && mallocs > 0 && old(elements.freeList) != [] && old(allocatedSize) == MAX_POOL))
    {
      hide Shape, Total, SizeOf, HeldOf, CountDelta, BlocksFor, Wrap32, FreeChain, UsedChain;
      hide Admitted, BlocksBack, BytesBack;
      ghost var ks, first, free := buckets[..], Total(buckets[..]), |elements.freeList|;
      DeltaBounds(b);
      Counts();
      var delta := CountDelta(blockSize);
      DeltaExact(b);
      BiggestWraps(b, ks, mallocs, free);
      var ok := Admit(Wrap32(blockSize * delta));
      Counts();
      if !ok {
        return -1;
      }
      ghost var total := Total(buckets[..]);
      code := Fill(b, delta, mallocs);
      ExpandedBudget(b, ks, total, |lists[b]|);
    }

    /** memory_pool.cpp, lines 173-202. The caller gets a block of the smallest size class that holds the request, which
        nobody else holds; nobody else's block is affected. Null means that nothing was handed out. */
    method Alloc(requested: nat, mallocs: nat) returns (ptr: array?<byte>, actualSize: nat, cookie: nat)
      requires Valid()
      modifies this, buckets, elements, elements.elems
      ensures Valid() && elements.elems == old(elements.elems)
      ensures old(blocks) <= blocks && fresh(blocks - old(blocks))
      ensures requested > MAX_POOL ==> ptr == null
      ensures ptr == null ==> out == old(out) && Held() == old(Held())
      ensures ptr != null ==> cookie !in old(out) && out == old(out) + {cookie} && ptr in blocks
      ensures ptr != null ==> Served(old(Held()), Held(), requested, ptr, actualSize, cookie)
      ensures ptr != null <==>
        CanAlloc(requested, old(lists), old(buckets[..]), mallocs, |old(elements.freeList)|)
      ensures forall b: nat | b < BUCKETS && Fits(requested, b) ::
        |elements.freeList| == FreeAfter(b, old(lists)[b], old(buckets[..]), mallocs, |old(elements.freeList)|)
      ensures ptr != null ==> forall b: nat | b < BUCKETS && Fits(requested, b) ::
        |lists[b]| == FreeThere(b, old(lists)[b], old(buckets[..]), mallocs, |old(elements.freeList)|) - 1
      ensures old(Idle()) ==> Idle()
      ensures old(InBudget()) ==> (InBudget() <==>
        !(MAX_POOL / 2 < requested <= MAX_POOL && mallocs > 0 && old(elements.freeList) != [] &&
          old(buckets[21].firstFree) == END && old(allocatedSize) == MAX_POOL))
    {
      hide Shape, Total, SizeOf, HeldOf, CountDelta, BlocksFor, Wrap32, IdleOk, FreeChain, UsedChain;
      var blockSize, b := GetFitSize(requested);
      FitsWithin(requested, b);
      FitIsSize(b);
      OnlyFit(requested, b);
      AskOne(requested, b, lists, buckets[..], mallocs, |elements.freeList|);
      Counts();
      if blockSize == UINT_MAX {
        return null, 0, 0;
      }
      ghost var expands := lists[b] == [];
      if buckets[b].firstFree == END {
        var code := ExpandPool(blockSize, b, mallocs);
        if code == -1 {
          Counts();
          IdleKept(buckets[..], old(buckets[..]));
          return null, 0, 0;
        }
      }
      Counts();
      ghost var k := buckets[b];
      ptr, cookie := TakeFirst(b);
      actualSize := blockSize;
      Counts();
      IdleServed(buckets[..], old(buckets[..]), b, expands);
    }

    /** memory_pool.cpp, lines 193-198: the head of the bucket's list is handed out. */
    method TakeFirst(b: nat) returns (ptr: array<byte>, cookie: nat)
      requires Valid() && b < BUCKETS && lists[b] != []
      modifies this, buckets
      ensures Valid() && elements.elems == old(elements.elems) && blocks == old(blocks) && ptr in blocks
      ensures cookie !in old(out) && out == old(out) + {cookie} && cookie !in old(Held())
      ensures Held() == old(Held())[cookie := (b, ptr)] && ptr.Length == SizeOf(b)
      ensures forall c | c in old(Held()) :: old(Held())[c].1 != ptr
      ensures buckets[b] == old(buckets[b]).(firstFree := buckets[b].firstFree,
        freeCount := old(buckets[b]).freeCount - 1)
      ensures forall i | 0 <= i < BUCKETS && i != b :: buckets[i] == old(buckets[i])
      ensures Total(buckets[..]) == old(Total(buckets[..]))
    {
      hide Shape, Total, SizeOf, HeldOf, FreeChain, UsedChain;
      ghost var data, ks := elements.Data(), buckets[..];
      ShapeHead(data, ks, lists, home, out, elements.usedList, blocks, allocatedSize, b);
      ShapeTakes(data, ks, lists, home, out, elements.usedList, blocks, allocatedSize, b);
      var k := buckets[b];
      cookie := k.firstFree;
      ptr := elements.elems[cookie].data.ptr;
      buckets[b] := Bucket(k.blockSize, elements.elems[cookie].data.next, k.freeCount - 1, k.totalCount);
      out := out + {cookie};
      lists := lists[b := lists[b][1..]];
    }

    /** memory_pool.cpp, lines 204-223. The block goes back to its bucket, and idle blocks go back to the system. */
    method Release(actualSize: nat, cookie: nat) returns (code: int)
      requires Valid()
      requires actualSize <= MAX_POOL ==> cookie in Held() && Fits(actualSize, Held()[cookie].0)
      modifies this, buckets, elements, elements.elems
      ensures Valid() && elements.elems == old(elements.elems) && blocks == old(blocks)
      ensures code == if actualSize <= MAX_POOL then 0 else -1
      ensures code == 0 ==> out == old(out) - {cookie} && Held() == old(Held()) - {cookie}
      ensures code == 0 ==>
        var b, back := old(Held())[cookie].0, [cookie] + old(lists)[old(Held())[cookie].0];
        var n := Surplus(b, |back|, |HandedOut(old(home), out, b)|, MAX_POOL / 2);
        n <= |back| && Trimmed(old(lists), b, cookie, n, lists) &&
        Total(buckets[..]) == old(Total(buckets[..])) - SizeOf(b) * n &&
        |elements.freeList| == |old(elements.freeList)| + n
      ensures code == -1 ==> out == old(out) && Held() == old(Held()) && buckets[..] == old(buckets[..])
      ensures old(Idle()) ==> Idle()
      ensures Total(buckets[..]) <= old(Total(buckets[..]))
    {
      hide Shape, Total, SizeOf, HeldOf, IdleOk, FreeChain, UsedChain, Fits, Surplus, HandedOut, Trimmed;
      var blockSize, b := GetFitSize(actualSize);
      FitsWithin(actualSize, b);
      FitIsSize(b);
      if blockSize == UINT_MAX {
        return -1;
      }
      FitsUnique(actualSize, b, Held()[cookie].0);
      TakeBack(b, cookie);
      return 0;
    }

    /** memory_pool.cpp, lines 214-219, on the bucket of the cookie. */
    method TakeBack(b: nat, cookie: nat)
      requires Valid() && b < BUCKETS && cookie in Held() && Held()[cookie].0 == b
      modifies this, buckets, elements, elements.elems
      ensures Valid() && elements.elems == old(elements.elems) && blocks == old(blocks)
      ensures out == old(out) - {cookie} && Held() == old(Held()) - {cookie}
      ensures var n := Surplus(b, 1 + |old(lists)[b]|, |HandedOut(old(home), out, b)|, MAX_POOL / 2);
        n <= 1 + |old(lists)[b]| && Trimmed(old(lists), b, cookie, n, lists) &&
        Total(buckets[..]) == old(Total(buckets[..])) - SizeOf(b) * n &&
        |elements.freeList| == |old(elements.freeList)| + n
      ensures old(Idle()) ==> Idle()
    {
      hide Shape, Total, SizeOf, HeldOf, IdleOk, RecycleCount, FreeChain, UsedChain, Surplus, HandedOut, Trimmed;
      Counts();
      GiveBack(b, cookie);
      ghost var k := buckets[b];
      Counts();
      ghost var n := RecycleCount(k, MAX_POOL / 2);
      RecycleCertain(b, MAX_POOL / 2);
      TrimsTwice(old(lists), b, cookie, n);
      Counts();
      IdleReleased(old(buckets[b]), k, buckets[b], b);
      IdleKeptBut(buckets[..], old(buckets[..]), b);
    }

    /** memory_pool.cpp, lines 214-217: the cookie is put before the bucket's list. */
    method GiveBack(b: nat, cookie: nat)
      requires Valid() && b < BUCKETS && cookie in Held() && Held()[cookie].0 == b
      modifies this, buckets, elements.elems
      ensures Valid() && elements.elems == old(elements.elems) && blocks == old(blocks)
      ensures out == old(out) - {cookie} && home == old(home) && Held() == old(Held()) - {cookie}
      ensures lists == old(lists)[b := [cookie] + old(lists)[b]] && elements.freeList == old(elements.freeList)
      ensures buckets[b] == old(buckets[b]).(firstFree := cookie, freeCount := old(buckets[b]).freeCount + 1)
      ensures forall i | 0 <= i < BUCKETS && i != b :: buckets[i] == old(buckets[i])
      ensures Total(buckets[..]) == old(Total(buckets[..]))
    {
      hide Shape, Total, SizeOf, HeldOf, FreeChain, UsedChain;
      ghost var ks, data := buckets[..], elements.Data();
      ShapeGives(data, ks, lists, home, out, elements.usedList, blocks, allocatedSize, cookie);
      var k := buckets[b];
      elements.SetData(cookie, elements.elems[cookie].data.(next := k.firstFree));
      buckets[b] := Bucket(k.blockSize, cookie, k.freeCount + 1, k.totalCount);
      out := out - {cookie};
      lists := lists[b := [cookie] + lists[b]];
    }
  }

  // ------------------------------------------------------------------------------------------------
  // The state of a pool, on values
  // ------------------------------------------------------------------------------------------------

  /** A well-formed pool whose used slab elements are exactly the blocks it has, with its size counted on uint32_t. */
  ghost predicate Shape(data: seq<PoolElement>, ks: seq<Bucket>, lists: seq<seq<nat>>, home: map<nat, nat>,
                        out: set<nat>, used: seq<nat>, blocks: set<array<byte>>, allocatedSize: nat) {
    PoolOk(data, ks, lists, home, out) && (forall c: nat :: c in used <==> c in home) &&
    BlocksIn(data, home, blocks) && allocatedSize == Wrap32(Total(ks))
  }

  ghost predicate Told(k: Bucket, list: seq<nat>, b: nat) {
    k.blockSize == SizeOf(b) && k.freeCount == |list| && (k.firstFree == END <==> list == [])
  }

  lemma BucketsTold(data: seq<PoolElement>, ks: seq<Bucket>, lists: seq<seq<nat>>, home: map<nat, nat>, out: set<nat>)
    requires PoolOk(data, ks, lists, home, out)
    ensures forall b | 0 <= b < BUCKETS :: Told(ks[b], lists[b], b)
  {
    forall b | 0 <= b < BUCKETS ensures Told(ks[b], lists[b], b) {
      assert BucketOk(data, ks[b], lists[b], home, out, b);
      assert lists[b] != [] ==> Linked(data, lists[b], 0);
    }
  }

  lemma ShapeRecycles(data: seq<PoolElement>, ks: seq<Bucket>, lists: seq<seq<nat>>, home: map<nat, nat>,
                      out: set<nat>, used: seq<nat>, blocks: set<array<byte>>, allocatedSize: nat, b: nat,
                      threshold: nat)
    requires Shape(data, ks, lists, home, out, used, blocks, allocatedSize) && b < BUCKETS
    ensures |ks| == |lists| == BUCKETS
    ensures RecycleCount(ks[b], threshold) == Surplus(b, |lists[b]|, |HandedOut(home, out, b)|, threshold)
  {
    RecycleIsSurplus(data, ks, lists, home, out, b, threshold);
  }

  /** The first free cookie of a bucket. */
  lemma ShapeHead(data: seq<PoolElement>, ks: seq<Bucket>, lists: seq<seq<nat>>, home: map<nat, nat>, out: set<nat>,
                  used: seq<nat>, blocks: set<array<byte>>, allocatedSize: nat, b: nat)
    requires Shape(data, ks, lists, home, out, used, blocks, allocatedSize)
    requires b < BUCKETS && b < |lists| && lists[b] != []
    ensures b < |ks| && ks[b].blockSize == SizeOf(b) && ks[b].freeCount > 0 && ks[b].totalCount > 0
    ensures var c := lists[b][0]; c == ks[b].firstFree && c < |data| && c in used && c !in out && data[c].ptr in blocks
  {
    hide Total, Wrap32;
    assert BucketOk(data, ks[b], lists[b], home, out, b);
    ShrinkOk(data, ks, lists, home, out, b);
  }

  lemma ShapeShrinks(data: seq<PoolElement>, ks: seq<Bucket>, lists: seq<seq<nat>>, home: map<nat, nat>, out: set<nat>,
                     used: seq<nat>, left: seq<nat>, blocks: set<array<byte>>, allocatedSize: nat, b: nat)
    requires Shape(data, ks, lists, home, out, used, blocks, allocatedSize)
    requires b < BUCKETS && b < |lists| && lists[b] != [] && NoDup(used) && RemovedFrom(used, lists[b][0], left)
    ensures b < |ks| && ks[b].freeCount > 0 && ks[b].totalCount > 0 && lists[b][0] < |data|
    ensures var c, k := lists[b][0], ks[b];
      var ks' := ks[b := Bucket(k.blockSize, data[c].next, k.freeCount - 1, k.totalCount - 1)];
      Shape(data, ks', lists[b := lists[b][1..]], home - {c}, out, left, blocks, Wrap32(allocatedSize - k.blockSize)) &&
      HeldOf(data, home - {c}, out) == HeldOf(data, home, out) && Total(ks') == Total(ks) - SizeOf(b)
  {
    hide Wrap32, Total, SizeOf, NoDup, RemovedFrom, BucketOk, BlocksOk;
    ShapeHead(data, ks, lists, home, out, used, blocks, allocatedSize, b);
    var c, k := lists[b][0], ks[b];
    ShrinkOk(data, ks, lists, home, out, b);
    RemovedMembers(used, c, left);
    TotalUpdate(ks, b, Bucket(k.blockSize, data[c].next, k.freeCount - 1, k.totalCount - 1));
    LessOne(k.blockSize, k.totalCount);
    WrapDown(Total(ks), k.blockSize);
    ShrunkHeld(data, home, out, c);
  }

  lemma ShapeGrows(data: seq<PoolElement>, ks: seq<Bucket>, lists: seq<seq<nat>>, home: map<nat, nat>, out: set<nat>,
                   used: seq<nat>, blocks: set<array<byte>>, allocatedSize: nat, b: nat, c: nat, ptr: array<byte>)
    requires Shape(data, ks, lists, home, out, used, blocks, allocatedSize)
    requires b < BUCKETS && c < |data| && c !in used && ptr.Length == SizeOf(b) && ptr !in blocks
    ensures |ks| == |lists| == BUCKETS && c !in home
    ensures var k := ks[b];
      var ks' := ks[b := Bucket(k.blockSize, c, k.freeCount + 1, k.totalCount + 1)];
      var data' := data[c := PoolElement(ptr, k.firstFree)];
      Shape(data', ks', lists[b := [c] + lists[b]], home[c := b], out, [c] + used, blocks + {ptr},
        Wrap32(allocatedSize + k.blockSize)) &&
      HeldOf(data', home[c := b], out) == HeldOf(data, home, out) && Total(ks') == Total(ks) + SizeOf(b)
  {
    hide Wrap32, Total, SizeOf;
    var k := ks[b];
    var data' := data[c := PoolElement(ptr, k.firstFree)];
    GrowOk(data, ks, lists, home, out, b, c, ptr);
    assert BucketOk(data, k, lists[b], home, out, b);
    GrownHeld(data, ks, lists, home, out, b, c, PoolElement(ptr, k.firstFree));
    TotalUpdate(ks, b, Bucket(k.blockSize, c, k.freeCount + 1, k.totalCount + 1));
    OneMoreTimes(k.blockSize, k.totalCount);
    WrapUp(Total(ks), k.blockSize);
    forall d: nat ensures d in [c] + used <==> d in home[c := b] {
      assert d in [c] + used <==> d == c || d in used;
    }
  }

  lemma ShapeTakes(data: seq<PoolElement>, ks: seq<Bucket>, lists: seq<seq<nat>>, home: map<nat, nat>, out: set<nat>,
                   used: seq<nat>, blocks: set<array<byte>>, allocatedSize: nat, b: nat)
    requires Shape(data, ks, lists, home, out, used, blocks, allocatedSize)
    requires b < BUCKETS && b < |lists| && lists[b] != []
    ensures b < |ks| && ks[b].freeCount > 0 && lists[b][0] < |data|
    ensures var c, k, held := lists[b][0], ks[b], HeldOf(data, home, out);
      var ks' := ks[b := Bucket(k.blockSize, data[c].next, k.freeCount - 1, k.totalCount)];
      Shape(data, ks', lists[b := lists[b][1..]], home, out + {c}, used, blocks, allocatedSize) &&
      c !in held && HeldOf(data, home, out + {c}) == held[c := (b, data[c].ptr)] && Total(ks') == Total(ks) &&
      data[c].ptr != null && data[c].ptr.Length == SizeOf(b) && forall d | d in held :: held[d].1 != data[c].ptr
  {
    hide Wrap32, Total, SizeOf;
    ShapeHead(data, ks, lists, home, out, used, blocks, allocatedSize, b);
    var c, k := lists[b][0], ks[b];
    TakeOk(data, ks, lists, home, out, b);
    TakenHeld(data, ks, lists, home, out, c);
    TotalUpdate(ks, b, Bucket(k.blockSize, data[c].next, k.freeCount - 1, k.totalCount));
  }

  lemma ShapeGives(data: seq<PoolElement>, ks: seq<Bucket>, lists: seq<seq<nat>>, home: map<nat, nat>, out: set<nat>,
                   used: seq<nat>, blocks: set<array<byte>>, allocatedSize: nat, c: nat)
    requires Shape(data, ks, lists, home, out, used, blocks, allocatedSize) && c in HeldOf(data, home, out)
    ensures |ks| == |lists| == BUCKETS && HeldOf(data, home, out)[c].0 < BUCKETS && c < |data|
    ensures var b := HeldOf(data, home, out)[c].0; var k := ks[b];
      var ks' := ks[b := Bucket(k.blockSize, c, k.freeCount + 1, k.totalCount)];
      var data' := data[c := PoolElement(data[c].ptr, k.firstFree)];
      Shape(data', ks', lists[b := [c] + lists[b]], home, out - {c}, used, blocks, allocatedSize) &&
      HeldOf(data', home, out - {c}) == HeldOf(data, home, out) - {c} && Total(ks') == Total(ks)
  {
    hide Wrap32, Total, SizeOf;
    GiveOk(data, ks, lists, home, out, c);
    var k := ks[home[c]];
    GivenHeld(data, home, out, c, k.firstFree);
    TotalUpdate(ks, home[c], Bucket(k.blockSize, c, k.freeCount + 1, k.totalCount));
  }

  /** What a successful alloc means for who holds what. */
  ghost predicate Served(before: map<nat, (nat, array?<byte>)>, after: map<nat, (nat, array?<byte>)>,
                         requested: nat, ptr: array<byte>, actualSize: nat, cookie: nat) {
    cookie !in before && cookie in after && after == before[cookie := (after[cookie].0, ptr)] &&
    after[cookie].0 < BUCKETS && Fits(requested, after[cookie].0) &&
    ptr.Length == actualSize == SizeOf(after[cookie].0) && forall c | c in before :: before[c].1 != ptr
  }

  function Least(a: nat, b: nat, c: nat): nat {
    if a <= b && a <= c then a else if b <= c then b else c
  }

  /** The bytes by which a bucket expands. */
  function Delta(b: nat): nat {
    SizeOf(b) * BlocksFor(b)
  }

  /** How many blocks an expansion of an empty bucket adds: it must pass the test, and then malloc or the slab may end
      it. `free` elements of the slab are free, and recycling frees more. */
  function Added(b: nat, ks: seq<Bucket>, mallocs: nat, free: nat): nat {
    if Admitted(ks, Delta(b)) then Least(BlocksFor(b), mallocs, free + BlocksBack(ks, Delta(b))) else 0
  }

  /** A free block is there, or an expansion adds one. */
  predicate CanServe(b: nat, list: seq<nat>, ks: seq<Bucket>, mallocs: nat, free: nat) {
    list != [] || Added(b, ks, mallocs, free) > 0
  }

  /** The cookie is put before its list, and then the first n go. */
  predicate Trimmed(before: seq<seq<nat>>, b: nat, cookie: nat, n: nat, after: seq<seq<nat>>) {
    b < |before| && n <= 1 + |before[b]| && after == before[b := ([cookie] + before[b])[n..]]
  }

  lemma TrimsTwice(before: seq<seq<nat>>, b: nat, cookie: nat, n: nat)
    requires b < |before| && n <= 1 + |before[b]|
    ensures var given := before[b := [cookie] + before[b]];
      Trimmed(before, b, cookie, n, given[b := given[b][n..]])
  {
    var given := before[b := [cookie] + before[b]];
    assert given[b := given[b][n..]] == before[b := ([cookie] + before[b])[n..]];
  }

  /** How many blocks of the bucket are free when its head is about to be handed out. */
  function FreeThere(b: nat, list: seq<nat>, ks: seq<Bucket>, mallocs: nat, free: nat): nat {
    if list != [] then |list| else Added(b, ks, mallocs, free)
  }

  /** Some bucket fits the request and can serve it. */
  ghost predicate CanAlloc(requested: nat, lists: seq<seq<nat>>, ks: seq<Bucket>, mallocs: nat, free: nat) {
    exists b: nat :: b < BUCKETS && b < |lists| && Fits(requested, b) && CanServe(b, lists[b], ks, mallocs, free)
  }

  /** How many elements of the slab are free once bucket b has been asked. */
  function FreeAfter(b: nat, list: seq<nat>, ks: seq<Bucket>, mallocs: nat, free: nat): int {
    if list != [] then free else free + BlocksBack(ks, Delta(b)) - Added(b, ks, mallocs, free)
  }

  lemma OnlyUpToMax(requested: nat, lists: seq<seq<nat>>, ks: seq<Bucket>, mallocs: nat, free: nat)
    ensures CanAlloc(requested, lists, ks, mallocs, free) ==> requested <= MAX_POOL
  {
    hide CanServe, Fits;
    if CanAlloc(requested, lists, ks, mallocs, free) {
      var b: nat :| b < BUCKETS && b < |lists| && Fits(requested, b) && CanServe(b, lists[b], ks, mallocs, free);
      FitsWithin(requested, b);
    }
  }

  /** There is only one bucket to ask. */
  lemma AskOne(requested: nat, b: nat, lists: seq<seq<nat>>, ks: seq<Bucket>, mallocs: nat, free: nat)
    requires Fits(requested, b) && |lists| == BUCKETS
    ensures CanAlloc(requested, lists, ks, mallocs, free) <==> b < BUCKETS && CanServe(b, lists[b], ks, mallocs, free)
  {
    hide CanServe, Fits;
    OnlyFit(requested, b);
  }

  /** A 2 GiB block on top of 2 GiB: the 32-bit sum is zero, so neither test of expand_pool stops it. */
  lemma BiggestWraps(b: nat, ks: seq<Bucket>, mallocs: nat, free: nat)
    requires b < BUCKETS
    ensures b == 21 && Wrap32(Total(ks)) == MAX_POOL ==>
      Added(b, ks, mallocs, free) == Least(BlocksFor(b), mallocs, free)
  {
    hide SizeOf, Total;
    SizeKinds(b);
    DeltaBounds(b);
    WrapUp(Total(ks), Delta(b));
  }

  lemma DeltaExact(b: nat)
    requires b < BUCKETS
    ensures Wrap32(SizeOf(b) * BlocksFor(b)) == SizeOf(b) * BlocksFor(b)
  {
    hide SizeOf, BlocksFor;
    SizeKinds(b);
    DeltaBounds(b);
  }

  /** A pool within budget, of which recycling left `total` bytes, has grown by n blocks of bucket b. */
  lemma ExpandedBudget(b: nat, ks: seq<Bucket>, total: nat, n: nat)
    requires b < BUCKETS && n <= BlocksFor(b) && Admitted(ks, Delta(b))
    requires total == Total(ks) - BytesBack(ks, Delta(b))
    ensures var first := Total(ks);
      first <= MAX_POOL ==> (total + SizeOf(b) * n <= MAX_POOL <==> !(n > 0 && b == 21 && first == MAX_POOL))
  {
    hide SizeOf, BlocksFor, Total, RecycledBytes;
    var first := Total(ks);
    if first <= MAX_POOL {
      var size, delta := SizeOf(b), BlocksFor(b);
      SizeKinds(b);
      DeltaBounds(b);
      MulMono(size, n, delta);
      MulMono(size, if n == 0 then 0 else 1, n);
      BudgetAfter(first, total, total < first, size * delta, size, size * n);
    }
  }

  lemma FitIsSize(b: nat)
    ensures b < BUCKETS ==> 0 < SizeOf(b) < UINT_MAX
  {
    if b < BUCKETS {
      SizeKinds(b);
    }
  }

  lemma OnlyFit(size: nat, b: nat)
    requires Fits(size, b)
    ensures forall c: nat | Fits(size, c) :: c == b
  {
    forall c: nat | Fits(size, c) ensures c == b { FitsUnique(size, b, c); }
  }

  /** A block in somebody's hands is counted. */
  lemma HeldIsCounted(data: seq<PoolElement>, ks: seq<Bucket>, lists: seq<seq<nat>>, home: map<nat, nat>,
                      out: set<nat>, c: nat)
    requires PoolOk(data, ks, lists, home, out) && c in HeldOf(data, home, out)
    ensures Total(ks) >= SizeOf(HeldOf(data, home, out)[c].0)
  {
    assert BlockOk(data, home, c);
    var b := home[c];
    assert BucketOk(data, ks[b], lists[b], home, out, b);
    assert c in InBucket(home, b);
    TotalHolds(ks, b);
    MulMono(SizeOf(b), 1, ks[b].totalCount);
  }

  /** The budget can be overrun: two requests of 2 GiB in a row are both served, and the pool then holds
      4 GiB while m_allocated_size reads zero. */
  method TwoBigBlocks() returns (pool: MemoryPool)
    ensures pool.Valid() && !pool.InBudget()
  {
    hide PoolOk, Total, HeldOf, CountDelta, BlocksFor, BlocksIn, Fits, SizeOf;
    pool := new MemoryPool();
    var code := pool.Init(3, true);
    SizeKinds(21);
    DeltaBounds(21);
    BigFit();
    assert |pool.elements.freeList| == 3;
    FirstBig(pool.buckets[..], |pool.elements.freeList|);
    AskOne(MAX_POOL, 21, pool.lists, pool.buckets[..], 1, |pool.elements.freeList|);
    var first, _, cookie := pool.Alloc(MAX_POOL, 1);
    OnlyFit(MAX_POOL, 21);
    HeldIsCounted(pool.elements.Data(), pool.buckets[..], pool.lists, pool.home, pool.out, cookie);
    pool.Counts();
    assert IdleOk(pool.buckets[21]);
    assert pool.allocatedSize == MAX_POOL;
    BiggestWraps(21, pool.buckets[..], 1, |pool.elements.freeList|);
    AskOne(MAX_POOL, 21, pool.lists, pool.buckets[..], 1, |pool.elements.freeList|);
    var second, _, _ := pool.Alloc(MAX_POOL, 1);
  }

  /** The first KiB asked of a fresh pool leaves 127 free blocks behind. */
  method FirstKilobyte() returns (pool: MemoryPool)
    ensures pool.Valid() && |pool.lists| == BUCKETS && |pool.lists[0]| == 127
  {
    hide PoolOk, Total, HeldOf, BlocksIn, Fits;
    pool := new MemoryPool();
    var code := pool.Init(1000, true);
    FitsKilobyte();
    FirstSmall(pool.buckets[..], |pool.elements.freeList|);
    AskOne(1024, 0, pool.lists, pool.buckets[..], 1000, |pool.elements.freeList|);
    var _, _, _ := pool.Alloc(1024, 1000);
  }

  lemma FitsKilobyte()
    ensures Fits(1024, 0)
  {
  }

  lemma FirstSmall(ks: seq<Bucket>, free: nat)
    requires Total(ks) == 0 && free >= 128
    ensures Added(0, ks, 1000, free) == 128 && BlocksBack(ks, Delta(0)) == 0
  {
    hide Total;
  }

  /** An empty pool adds one block of 2 GiB. */
  lemma FirstBig(ks: seq<Bucket>, free: nat)
    requires Total(ks) == 0 && free > 0
    ensures Added(21, ks, 1, free) == 1 && BlocksBack(ks, Delta(21)) == 0
  {
    hide SizeOf, Total;
    SizeKinds(21);
    DeltaBounds(21);
  }

  lemma BigFit()
    ensures Fits(MAX_POOL, 21)
  {
    SizeMarks();
    forall i: nat | i < 21 ensures SizeOf(i) < MAX_POOL { SizesGrow(i, 21); }
  }

  lemma TakenHeld(data: seq<PoolElement>, ks: seq<Bucket>, lists: seq<seq<nat>>, home: map<nat, nat>, out: set<nat>,
                  c: nat)
    requires PoolOk(data, ks, lists, home, out) && c in home && c !in out
    ensures BlockOk(data, home, c) && c !in HeldOf(data, home, out)
    ensures HeldOf(data, home, out + {c}) == HeldOf(data, home, out)[c := (home[c], data[c].ptr)]
    ensures forall d | d in HeldOf(data, home, out) :: HeldOf(data, home, out)[d].1 != data[c].ptr
  {
    assert BlockOk(data, home, c);
  }

  lemma GivenHeld(data: seq<PoolElement>, home: map<nat, nat>, out: set<nat>, c: nat, next: nat)
    requires c < |data|
    ensures HeldOf(data[c := PoolElement(data[c].ptr, next)], home, out - {c}) == HeldOf(data, home, out) - {c}
  {
  }

  lemma IdleFewer(now: Bucket, before: Bucket)
    requires FewerFree(now, before) && IdleOk(before)
    ensures IdleOk(now)
  {
    MulMono(now.blockSize, now.freeCount, before.freeCount);
  }

  lemma IdleKept(now: seq<Bucket>, before: seq<Bucket>)
    requires |now| == |before| && forall i | 0 <= i < |now| :: FewerFree(now[i], before[i])
    ensures (forall i | 0 <= i < |now| :: IdleOk(before[i])) ==> forall i | 0 <= i < |now| :: IdleOk(now[i])
  {
    forall i | 0 <= i < |now| && IdleOk(before[i]) ensures IdleOk(now[i]) { IdleFewer(now[i], before[i]); }
  }

  /** One more free block, and then what recycling leaves of them. */
  lemma IdleReleased(before: Bucket, k: Bucket, now: Bucket, b: nat)
    requires b < BUCKETS && k.blockSize == SizeOf(b) == before.blockSize == now.blockSize
    requires k.freeCount == before.freeCount + 1 && now.freeCount == k.freeCount - RecycleCount(k, MAX_POOL / 2)
    ensures IdleOk(before) ==> IdleOk(now)
  {
    hide SizeOf, IdleOk, RecycleCount;
    if IdleOk(before) {
      IdleFewer(k.(freeCount := k.freeCount - 1), before);
      ReleaseKeepsIdle(k, b);
      IdleFewer(now, k.(freeCount := k.freeCount - RecycleCount(k, MAX_POOL / 2)));
    }
  }

  lemma IdleKeptBut(now: seq<Bucket>, before: seq<Bucket>, b: nat)
    requires |now| == |before| && b < |now| && forall i | 0 <= i < |now| && i != b :: FewerFree(now[i], before[i])
    requires (forall i | 0 <= i < |now| :: IdleOk(before[i])) ==> IdleOk(now[b])
    ensures (forall i | 0 <= i < |now| :: IdleOk(before[i])) ==> forall i | 0 <= i < |now| :: IdleOk(now[i])
  {
    if forall i | 0 <= i < |now| :: IdleOk(before[i]) {
      forall i | 0 <= i < |now| ensures IdleOk(now[i]) {
        if i != b {
          IdleFewer(now[i], before[i]);
        }
      }
    }
  }

  /** After an expansion of which one block has been handed out. */
  lemma IdleAfterExpansion(k: Bucket, b: nat)
    requires b < BUCKETS && k.blockSize == SizeOf(b) && k.freeCount < BlocksFor(b)
    ensures IdleOk(k)
  {
    SizeKinds(b);
    DeltaBounds(b);
    MulMono(k.blockSize, k.freeCount, BlocksFor(b));
  }

  /** One block of bucket b has been handed out, after an expansion or without. */
  lemma IdleServed(now: seq<Bucket>, before: seq<Bucket>, b: nat, expanded: bool)
    requires |now| == |before| == BUCKETS && b < BUCKETS
    requires forall i | 0 <= i < |now| && i != b :: FewerFree(now[i], before[i])
    requires expanded ==> now[b].blockSize == SizeOf(b) && now[b].freeCount < BlocksFor(b)
    requires !expanded ==> FewerFree(now[b], before[b])
    ensures (forall i | 0 <= i < |now| :: IdleOk(before[i])) ==> forall i | 0 <= i < |now| :: IdleOk(now[i])
  {
    hide IdleOk, SizeOf, BlocksFor;
    if expanded {
      IdleAfterExpansion(now[b], b);
    } else if IdleOk(before[b]) {
      IdleFewer(now[b], before[b]);
    }
    IdleKeptBut(now, before, b);
  }

  ghost predicate BlocksIn(data: seq<PoolElement>, home: map<nat, nat>, blocks: set<array<byte>>) {
    forall c | c in home :: c < |data| && data[c].ptr != null && data[c].ptr in blocks
  }

  /** The outstanding cookies, with bucket and block. */
  ghost function HeldOf(data: seq<PoolElement>, home: map<nat, nat>, out: set<nat>): map<nat, (nat, array?<byte>)> {
    map c | c in out && c in home && c < |data| :: (home[c], data[c].ptr)
  }

  /** Same bucket, not more free blocks. */
  predicate FewerFree(now: Bucket, before: Bucket) {
    now.blockSize == before.blockSize && now.freeCount <= before.freeCount
  }

  lemma GrownHeld(data: seq<PoolElement>, ks: seq<Bucket>, lists: seq<seq<nat>>, home: map<nat, nat>, out: set<nat>,
                  b: nat, c: nat, e: PoolElement)
    requires PoolOk(data, ks, lists, home, out) && c < |data| && c !in home
    ensures HeldOf(data[c := e], home[c := b], out) == HeldOf(data, home, out)
  {
  }

  lemma ShrunkHeld(data: seq<PoolElement>, home: map<nat, nat>, out: set<nat>, c: nat)
    requires c !in out
    ensures HeldOf(data, home - {c}, out) == HeldOf(data, home, out)
  {
  }

  lemma EmptyPool(data: seq<PoolElement>, ks: seq<Bucket>, used: seq<nat>)
    requires |data| < END && |ks| == BUCKETS && forall b | 0 <= b < BUCKETS :: ks[b] == Bucket(SizeOf(b), END, 0, 0)
    requires used == []
    ensures Shape(data, ks, seq(BUCKETS, _ => []), map[], {}, used, {}, 0) && Total(ks) == 0
    ensures forall b | 0 <= b < BUCKETS :: IdleOk(ks[b])
  {
    TotalZero(ks);
    var lists: seq<seq<nat>> := seq(BUCKETS, _ => []);
    forall b | 0 <= b < BUCKETS ensures BucketOk(data, ks[b], lists[b], map[], {}, b) {
      assert InBucket(map[], b) == {};
    }
  }

  lemma {:induction false} TotalZero(ks: seq<Bucket>)
    requires forall i | 0 <= i < |ks| :: ks[i].totalCount == 0
    ensures Total(ks) == 0
  {
    if ks != [] {
      TotalZero(ks[1..]);
    }
  }

  lemma RemovedMembers(before: seq<nat>, x: nat, after: seq<nat>)
    requires NoDup(before) && RemovedFrom(before, x, after)
    ensures forall c: nat :: c in after <==> c in before && c != x
  {
    var p: nat :| p < |before| && before[p] == x && after == Without(before, p);
    WithoutMembers(before, p);
  }

  lemma LessOne(size: nat, n: nat)
    requires n > 0
    ensures size * (n - 1) == size * n - size
  {
  }

  lemma OneMoreTimes(size: nat, n: nat)
    ensures size * (n + 1) == size * n + size
  {
  }

  lemma NoneRecycled(ks: seq<Bucket>, threshold: nat)
    ensures RecycledBlocks(ks[..0], threshold) == 0 && RecycledBytes(ks[..0], threshold) == 0
  {
  }

  lemma WrapDown(total: int, size: nat)
    ensures Wrap32(Wrap32(total) - size) == Wrap32(total - size)
  {
  }

  lemma WrapUp(total: int, size: nat)
    ensures Wrap32(Wrap32(total) + size) == Wrap32(total + size)
  {
  }
}
