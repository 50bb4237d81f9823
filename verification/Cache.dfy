/** cache.cpp: a growable queue of bytes that keeps its bytes in one block of the pool. */
module Cache {
  import opened Bytes
  import opened ElementSet
  import opened PoolShape
  import opened MemoryPool

  class Cache {
    const mp: MemoryPool
    var ptr: array?<byte>
    var offset: nat
    var totalLen: nat
    var dataLen: nat
    var cookie: nat

    /** It holds a block of the pool exactly when it holds bytes. */
    ghost predicate Valid()
      reads this, mp, mp.buckets, mp.elements, mp.elements.elems
    {
      mp.Valid() && (dataLen == 0 <==> totalLen == 0) && (totalLen == 0 ==> offset == 0) &&
      (totalLen > 0 ==> Holds(mp.Held(), mp.blocks))
    }

    ghost predicate Holds(held: map<nat, (nat, array?<byte>)>, blocks: set<array<byte>>)
      reads this
    {
      ptr != null && ptr in blocks && ptr.Length == totalLen && offset + dataLen <= totalLen &&
      cookie in held && held[cookie].1 == ptr && held[cookie].0 < BUCKETS && SizeOf(held[cookie].0) == totalLen
    }

    /** The bytes, oldest first. */
    ghost function Contents(): seq<byte>
      reads this, ptr
    {
      if ptr != null && offset + dataLen <= ptr.Length && totalLen > 0 then ptr[offset..offset + dataLen] else []
    }

    /** The cookie of the block it holds, if any. */
    ghost function Own(): set<nat>
      reads this
    {
      if totalLen > 0 then {cookie} else {}
    }

    /** Who else holds what. */
    ghost function Others(): map<nat, (nat, array?<byte>)>
      requires mp.elements.elems != null
      reads this, mp, mp.elements, mp.elements.elems
    {
      mp.Held() - Own()
    }

    constructor (mp: MemoryPool)
      requires mp.Valid()
      ensures Valid() && Contents() == [] && this.mp == mp
    {
      this.mp := mp;
      ptr := null;
      offset, totalLen, dataLen, cookie := 0, 0, 0, 0;
    }

    /** cache.cpp, lines 8-27 */
    method Skip(len: nat)
      requires Valid()
      modifies this, mp, mp.buckets, mp.elements, mp.elements.elems
      ensures Valid()
      ensures Contents() == if len >= |old(Contents())| then [] else old(Contents())[len..]
      ensures Others() == old(Others())
      ensures dataLen > 0 ==> cookie == old(cookie) && ptr == old(ptr)
      ensures dataLen > 0 ==> totalLen == old(totalLen) && offset == old(offset) + len
      ensures mp.blocks == old(mp.blocks) && mp.elements.elems == old(mp.elements.elems)
    {
      hide SizeOf, Fits, Shape, Total, HeldOf, FreeChain, UsedChain;
      if totalLen == 0 {
        return;
      }
      ExactFit(mp.Held()[cookie].0);
      if len >= dataLen {
        var _ := mp.Release(totalLen, cookie);
        offset, totalLen, dataLen := 0, 0, 0;
      } else {
        offset, dataLen := offset + len, dataLen - len;
      }
    }

    /** cache.cpp, lines 38-59: the bytes move to the front of a block that has room for newLen of them. */
    method Regrow(newLen: nat, mallocs: nat) returns (ok: bool)
      requires Valid() && newLen > totalLen
      modifies this, mp, mp.buckets, mp.elements, mp.elements.elems, mp.blocks
      ensures mp.Valid() && mp.elements.elems == old(mp.elements.elems)
      ensures old(mp.blocks) <= mp.blocks && fresh(mp.blocks - old(mp.blocks))
      ensures dataLen == old(dataLen) && Others() == old(Others())
      ensures forall a: array<byte> | a in old(mp.blocks) && a != ptr :: a[..] == old(a[..])
      ensures !ok ==> Valid() && Contents() == old(Contents())
      ensures !ok ==> ptr == old(ptr) && offset == old(offset) && totalLen == old(totalLen) && cookie == old(cookie)
      ensures !ok && ptr != null ==> ptr[..] == old(ptr[..])
      ensures ok ==> offset == 0 && newLen <= totalLen <= MAX_POOL && Holds(mp.Held(), mp.blocks)
      ensures ok ==> ptr[..dataLen] == old(Contents())
      ensures ok ==> forall c | c in old(Others()) :: old(Others())[c].1 != ptr
      ensures ok <==> CanAlloc(newLen, old(mp.lists), old(mp.buckets[..]), mallocs, |old(mp.elements.freeList)|)
    {
      hide SizeOf, Fits, Shape, Total, HeldOf, FreeChain, UsedChain, CanAlloc, IdleOk;
      var newPtr, actualLen, newCookie := mp.Alloc(newLen, mallocs);
      if newPtr == null {
        return false;
      }
      ExactFit(mp.Held()[newCookie].0);
      HasRoom(newLen, mp.Held()[newCookie].0);
      MoveTo(newPtr, actualLen, newCookie);
      return true;
    }

    /** cache.cpp, lines 45-58 */
    method MoveTo(newPtr: array<byte>, actualLen: nat, newCookie: nat)
      requires Valid() && newPtr in mp.blocks && newPtr.Length == actualLen > totalLen && newCookie !in Own()
      requires newCookie in mp.Held() && mp.Held()[newCookie].1 == newPtr
      requires mp.Held()[newCookie].0 < BUCKETS && SizeOf(mp.Held()[newCookie].0) == actualLen
      requires totalLen > 0 ==> newPtr != ptr
      modifies this, mp, mp.buckets, mp.elements, mp.elements.elems, newPtr
      ensures mp.Valid() && mp.elements.elems == old(mp.elements.elems) && mp.blocks == old(mp.blocks)
      ensures mp.Held() == old(mp.Held()) - old(Own()) && dataLen == old(dataLen)
      ensures ptr == newPtr && cookie == newCookie && offset == 0 && totalLen == actualLen
      ensures Holds(mp.Held(), mp.blocks) && ptr[..dataLen] == old(Contents())
    {
      hide SizeOf, Fits, Shape, Total, HeldOf, FreeChain, UsedChain;
      if totalLen > 0 {
        if dataLen > 0 {
          Memcpy(newPtr, 0, ptr[offset..offset + dataLen]);
        }
        ExactFit(mp.Held()[cookie].0);
        var _ := mp.Release(totalLen, cookie);
      }
      cookie, ptr, offset, totalLen := newCookie, newPtr, 0, actualLen;
    }

    /** cache.cpp, lines 61-70: in place behind the bytes, or after they have moved to the front. */
    static method Place(ptr: array<byte>, offset: nat, dataLen: nat, data: seq<byte>) returns (offset': nat)
      requires offset + dataLen <= ptr.Length <= MAX_POOL && dataLen + |data| <= ptr.Length
      requires dataLen > 0 || offset == 0
      modifies ptr
      ensures offset' + dataLen + |data| <= ptr.Length
      ensures ptr[offset'..offset' + dataLen + |data|] == old(ptr[offset..offset + dataLen]) + data
    {
      hide Splice, Wrap32;
      NeverWraps(offset, dataLen, |data|, ptr.Length);
      ghost var was := ptr[..];
      assert ptr[offset..offset + dataLen] == was[offset..offset + dataLen];
      if Wrap32(offset + dataLen + |data|) <= ptr.Length {
        Memcpy(ptr, offset + dataLen, data);
        offset' := offset;
        WrittenBehind(was, offset, dataLen, data);
      } else {
        Memcpy(ptr, 0, ptr[offset..offset + dataLen]);
        Memcpy(ptr, dataLen, data);
        offset' := 0;
        MovedToFront(was, offset, dataLen, data);
      }
      assert ptr[offset'..offset' + dataLen + |data|] == ptr[..][offset'..offset' + dataLen + |data|];
    }

    method PutBytes(data: seq<byte>)
      requires ptr != null && ptr.Length == totalLen <= MAX_POOL && 0 < totalLen && offset + dataLen <= totalLen
      requires dataLen + |data| <= totalLen && (dataLen > 0 || offset == 0)
      modifies this`offset, this`dataLen, ptr
      ensures dataLen == old(dataLen) + |data| && offset + dataLen <= totalLen
      ensures Contents() == old(Contents()) + data
    {
      var at := Place(ptr, offset, dataLen, data);
      offset, dataLen := at, dataLen + |data|;
    }

    method PutBehind(data: seq<byte>)
      requires mp.Valid() && Holds(mp.Held(), mp.blocks) && 0 < totalLen <= MAX_POOL
      requires dataLen + |data| <= totalLen && (dataLen > 0 || offset == 0) && dataLen + |data| > 0
      modifies this`offset, this`dataLen, ptr
      ensures dataLen == old(dataLen) + |data| && offset + dataLen <= totalLen
      ensures Contents() == old(Contents()) + data
      ensures Valid()
    {
      hide SizeOf, Fits, Shape, Total, HeldOf, FreeChain, UsedChain, MemoryPool.Valid, MemoryPool.Held, Contents;
      PutBytes(data);
    }

    /** cache.cpp, lines 29-74 */
    method Append(data: seq<byte>, mallocs: nat) returns (code: int)
      requires Valid() && |data| < UINT32
      modifies this, mp, mp.buckets, mp.elements, mp.elements.elems, mp.blocks
      ensures Valid() && mp.elements.elems == old(mp.elements.elems)
      ensures old(mp.blocks) <= mp.blocks && fresh(mp.blocks - old(mp.blocks))
      ensures code == 0 || code == -1
      ensures Contents() == if code == 0 then old(Contents()) + data else old(Contents())
      ensures code == -1 ==> ptr == old(ptr) && offset == old(offset) && cookie == old(cookie)
      ensures code == -1 ==> totalLen == old(totalLen) && dataLen == old(dataLen)
      ensures old(dataLen) + |data| > MAX_POOL ==> code == -1
      ensures code == 0 <==> old(dataLen) + |data| <= old(totalLen) || CanAlloc(old(dataLen) + |data|,
        old(mp.lists), old(mp.buckets[..]), mallocs, |old(mp.elements.freeList)|)
      ensures old(dataLen) + |data| <= old(totalLen) ==> ptr == old(ptr) && mp.lists == old(mp.lists)
      ensures Others() == old(Others())
      ensures forall a: array<byte> | a in old(mp.blocks) && !(totalLen > 0 && a == ptr) :: a[..] == old(a[..])
      ensures totalLen > 0 ==> forall c | c in Others() :: Others()[c].1 != ptr
    {
      hide SizeOf, Fits, Shape, Total, HeldOf, FreeChain, UsedChain, CanAlloc, MemoryPool.Held;
      mp.HeldBlocksDiffer();
      if totalLen > 0 {
        ExactFit(mp.Held()[cookie].0);
      }
      OnlyUpToMax(dataLen + |data|, mp.lists, mp.buckets[..], mallocs, |mp.elements.freeList|);
      if UINT_MAX - |data| < dataLen {
        return -1;
      }
      if dataLen + |data| > totalLen {
        var ok := Regrow(dataLen + |data|, mallocs);
        if !ok {
          return -1;
        }
      }
      if totalLen > 0 {
        PutBehind(data);
      }
      return 0;
    }
  }

  lemma WrittenBehind(s: seq<byte>, offset: nat, n: nat, data: seq<byte>)
    requires offset + n + |data| <= |s|
    ensures Splice(s, offset + n, data)[offset..offset + n + |data|] == s[offset..offset + n] + data
  {
  }

  lemma MovedToFront(s: seq<byte>, offset: nat, n: nat, data: seq<byte>)
    requires offset + n <= |s| && n + |data| <= |s|
    ensures Splice(Splice(s, 0, s[offset..offset + n]), n, data)[0..0 + n + |data|] == s[offset..offset + n] + data
  {
    SpliceJoin(s, 0, s[offset..offset + n], data);
  }

  lemma HasRoom(size: nat, b: nat)
    requires Fits(size, b) && b < BUCKETS
    ensures size <= SizeOf(b)
  {
  }

  /** The 32-bit sum of cache.cpp, line 61, is exact in every state it is computed in. */
  lemma NeverWraps(offset: nat, dataLen: nat, len: nat, totalLen: nat)
    requires offset + dataLen <= totalLen <= MAX_POOL && dataLen + len <= totalLen && (dataLen > 0 || offset == 0)
    ensures Wrap32(offset + dataLen + len) == offset + dataLen + len
  {
  }

  /** ... and there is no slack: in a fresh pool, appending 2 GiB, skipping all but one byte and appending 2 GiB - 1
      makes the sum of the last call the largest uint32_t. */
  method ReachTheTop(first: seq<byte>, more: seq<byte>) returns (c: Cache, offset: nat, dataLen: nat, code: int)
    requires |first| == MAX_POOL && |more| == MAX_POOL - 1
    ensures c.Valid() && code == 0 && offset + dataLen + |more| == UINT_MAX
    ensures c.Contents() == first[MAX_POOL - 1..] + more && dataLen == 1
  {
    hide SizeOf, Fits, Shape, Total, HeldOf, FreeChain, UsedChain, CanAlloc, IdleOk, BlocksFor;
    c := FullCache(first);
    c.Skip(MAX_POOL - 1);
    offset, dataLen := c.offset, c.dataLen;
    code := c.Append(more, 0);
  }

  method FullCache(first: seq<byte>) returns (c: Cache)
    requires |first| == MAX_POOL
    ensures c.Valid() && c.Contents() == first && c.offset == 0 && c.totalLen == MAX_POOL
    ensures fresh(c) && fresh(c.mp) && fresh(c.mp.buckets) && fresh(c.mp.elements)
    ensures c.mp.elements.elems != null && fresh(c.mp.elements.elems) && fresh(c.mp.blocks)
  {
    hide SizeOf, Fits, Shape, Total, HeldOf, FreeChain, UsedChain, CanAlloc, IdleOk, BlocksFor;
    var pool := new MemoryPool();
    var _ := pool.Init(1, true);
    BiggestFits(pool.lists, pool.buckets[..], |pool.elements.freeList|);
    c := new Cache(pool);
    var _ := c.Append(first, 1);
    ExactFit(c.mp.Held()[c.cookie].0);
  }

  lemma BiggestFits(lists: seq<seq<nat>>, ks: seq<Bucket>, free: nat)
    requires |lists| == BUCKETS && Total(ks) == 0 && free > 0
    ensures CanAlloc(MAX_POOL, lists, ks, 1, free)
  {
    hide CanAlloc;
    BigFit();
    FirstBig(ks, free);
    AskOne(MAX_POOL, 21, lists, ks, 1, free);
  }

  // ------------------------------------------------------------------------------------------------
  // Two caches on one pool
  // ------------------------------------------------------------------------------------------------

  /** They never share a block, and what one of them does leaves the bytes of the other alone. */
  method AppendBeside(a: Cache, b: Cache, data: seq<byte>, mallocs: nat) returns (code: int)
    requires a != b && a.mp == b.mp && a.Valid() && b.Valid() && a.Own() !! b.Own() && |data| < UINT32
    modifies a, a.mp, a.mp.buckets, a.mp.elements, a.mp.elements.elems, a.mp.blocks
    ensures a.Valid() && b.Valid() && a.Own() !! b.Own()
    ensures a.Contents() == if code == 0 then old(a.Contents()) + data else old(a.Contents())
    ensures b.Contents() == old(b.Contents())
    ensures a.totalLen > 0 && b.totalLen > 0 ==> a.ptr != b.ptr
  {
    hide SizeOf, Fits, Shape, Total, HeldOf, FreeChain, UsedChain, CanAlloc;
    assert forall c | c in b.Own() :: c in a.Others() && a.Others()[c] == a.mp.Held()[c];
    code := a.Append(data, mallocs);
    assert forall c | c in b.Own() :: c in a.Others() && a.Others()[c] == a.mp.Held()[c];
  }

  method SkipBeside(a: Cache, b: Cache, len: nat)
    requires a != b && a.mp == b.mp && a.Valid() && b.Valid() && a.Own() !! b.Own()
    modifies a, a.mp, a.mp.buckets, a.mp.elements, a.mp.elements.elems
    ensures a.Valid() && b.Valid() && a.Own() !! b.Own()
    ensures a.Contents() == if len >= |old(a.Contents())| then [] else old(a.Contents())[len..]
    ensures b.Contents() == old(b.Contents())
    ensures a.totalLen > 0 && b.totalLen > 0 ==> a.ptr != b.ptr
  {
    hide SizeOf, Fits, Shape, Total, HeldOf, FreeChain, UsedChain, CanAlloc;
    assert forall c | c in b.Own() :: c in a.Others() && a.Others()[c] == a.mp.Held()[c];
    a.Skip(len);
    assert forall c | c in b.Own() :: c in a.Others() && a.Others()[c] == a.mp.Held()[c];
    a.mp.HeldBlocksDiffer();
  }

  lemma ExactFit(b: nat)
    requires b < BUCKETS
    ensures Fits(SizeOf(b), b) && 0 < SizeOf(b) <= MAX_POOL
  {
    SizeKinds(b);
    forall i: nat | i < b ensures SizeOf(i) < SizeOf(b) {
      SizesGrow(i, b);
      SizesGrow(i, i);
    }
  }
}
