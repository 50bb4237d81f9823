# redis-pool: a verified model

This project models the asynchronous write path of `redis-pool` and proves what it promises. A caller hands a
command to `append_cmd`; the command is framed, goes through a lock-free ring queue, is taken apart by the dispatch
thread, looked up on a consistent-hash ring and left in the byte cache of a socket, whose memory comes from a pooled
allocator. Next to that path stand the pipelined connections of `RedisCtx` and the hexadecimal printer and parser.

Check everything with `dafny verify dfyconfig.toml` (Dafny 4.11).

## How it is modelled

* **The ring queue** exists three times. `RingProtocol` is a transition system with any number of threads: each has a
  program counter and its own stale reads, one step reads or swaps one cursor or moves one byte, and any thread may
  step at any time. `RingBuffer` and `RingQueue` are the array code as written, run by one thread. `RingRuns.Replay`
  is a plain sequential queue, the reference. `RingLink` shows that the byte steps of the first do what the array code
  of the second does; `RingRuns` shows that every run of the first is a history of the third, `RingDelivery` that nothing
  is lost and everything can arrive, and `RingOps` how operations end: no call returns without its answer, and none is
  forgotten. Spinning, pausing and yielding are steps that change nothing.
* **The allocator** is three classes as in the source. `ElementSet` is the slab: its two lists are ghost sequences tied
  to the links in the array. `PoolShape` says on values what a well-formed pool is and what four elementary changes do
  to it; `MemoryPool` is the class, `Shape` its state on values. `MemoryPool.Held` maps every outstanding cookie to its
  bucket and block and is what the contracts speak about. `Cache` is the byte queue on one block. `mallocs` (how many calls of malloc succeed) and
  `memory` (whether one does) stand for the system.
* **Hashing.** 64-bit words are naturals below 2^64; exclusive or and shift are defined bit by bit, multiplication
  modulo 2^64.
* **Connections.** A `redisContext` is a value owned by its `RedisCtx`; those that were given up stay in the ghost field
  `past`. The methods that stand for hiredis choose freely
  whether they fail. `sc.data()` and its write, likewise, take any first part of the bytes.
* **uint32_t** is a natural with `Wrap32` wherever the source computes something that could wrap.

## What was found

* The pool's budget check adds in 32 bits. With 2 GiB already allocated, a request for a block of the 2 GiB class
  wraps to zero and is let through. `ExpandPool` and `Alloc` say in terms of the state before the call exactly when
  the budget is broken, and `TwoBigBlocks` does it.
* A synchronous command on a connection with uncollected appends is given the reply of an appended command. `Operation`
  says exactly when the reply is the caller's own; `DbPool` never mixes the two on one connection, and `Session` shows
  that from the first connection on every synchronous call gets its own reply or none, so that `delPatternKeys`, even one
  that fails on the way, deletes nothing but what Redis listed for its own pattern.
* `cache_t::append` reaches 2^32 - 1 in its 32-bit sum, as `ReachTheTop` does, and never more.
* In `dump_hex2` the test at line 213 never succeeds.

## Model

| member | source | states |
|---|---|---|
| RingLayout.MaskIsModulo | redis-pool/src/queue.cpp:12 | for a power of two, masking a position with size - 1 is taking it modulo the size |
| RingLayout.SlotsDiffer | redis-pool/src/queue.cpp:12 | two positions less than a buffer apart never fall on the same byte |
| RingLayout.AlignedSlot | redis-pool/src/queue.cpp:120-150 | an 8-byte aligned position has its whole header before the end of the buffer, so headers never straddle it |
| RingLayout.ActualLen32Exact | redis-pool/src/queue.cpp:120 | the 32-bit size of a record is exact for every message the queue accepts |
| RingBuffer.MemcpyV | redis-pool/src/queue.cpp:67-97 | a resumable gather copy: the bytes copied are the next `len` of the concatenation of all chunks, wherever the last call stopped, empty chunks included, and the cursor it leaves resumes there |
| RingBuffer.EndComparison | redis-pool/src/queue.cpp:139-141 | comparing the two masked positions tells exactly whether the record reaches or passes the end of the buffer |
| RingBuffer.FillRecord | redis-pool/src/queue.cpp:138-170 | both branches leave header and message at the record's positions modulo the size, and every other byte as it was |
| RingBuffer.OverwriteUnique | redis-pool/src/queue.cpp:138-170 | that description fixes the resulting buffer completely |
| RingBuffer.ReadRecord | redis-pool/src/queue.cpp:246-273 | both branches copy out the bytes of the body from their positions modulo the size, and touch no more of the caller's buffer |
| RingBuffer.WriteThenRead | redis-pool/src/queue.cpp:138-273 | writing a record at any aligned position of any queue it fits, then reading header and body there, gives length and message back |
| RingQueue.Queue.IsPowerOfTwo | redis-pool/src/queue.cpp:28-39 | true exactly for the 32 powers of two |
| RingQueue.Queue.Init | redis-pool/src/queue.cpp:41-65 | succeeds exactly on the accepted sizes with memory at hand, and starts empty; a refused size changes nothing, a failed malloc leaves no buffer |
| RingQueue.Queue.GatherLength | redis-pool/src/queue.cpp:101-118 | -2 exactly for an empty message or one of more than 1 GiB, whatever its chunks |
| RingQueue.Queue.Enqueue | redis-pool/src/queue.cpp:99-202 | alone on the queue: appends the concatenation of the chunks; -2 and -1 exactly when it is not a valid message or does not fit, and then nothing changes |
| RingQueue.Queue.Dequeue | redis-pool/src/queue.cpp:209-298 | alone on the queue: removes the oldest message and hands back its bytes; -1 exactly when empty; -2, with the message lost, exactly when the buffer is too small and malloc fails; the caller's buffer if it is large enough, a new one if not |
| RingQueue.NextRecord | redis-pool/src/queue.cpp:222-225 | at the position of the oldest waiting message a reader finds its length and its bytes, and the rest of the queue behind it |
| RingQueue.WriteBehind | redis-pool/src/queue.cpp:138-170 | a record written behind the last one disturbs none of the waiting messages |
| RingProtocol.FreeSpaceExact | redis-pool/src/queue.cpp:127-136 | the unsigned free-space computation yields size + dequeue - pos for every position read, however stale: where the inner subtraction wraps, the outer one undoes it |
| RingProtocol.RegionsDisjoint | redis-pool/src/queue.cpp:125-138 | reserved regions that are still live share no byte of the buffer |
| RingProtocol.HeaderTrue | redis-pool/src/queue.cpp:222-227 | the four header bytes read through a still current position are the length of the next message |
| RingProtocol.CopiedByte | redis-pool/src/queue.cpp:246-273 | a byte copied out of a claimed record is the byte of its message |
| RingProtocol.InitInv | redis-pool/src/queue.cpp:54-59 | a fresh queue satisfies the invariant |
| RingProtocol.ReserveInv | redis-pool/src/queue.cpp:125-138 | the reservation swap keeps the invariant, also when the position read is stale |
| RingProtocol.WriteInv | redis-pool/src/queue.cpp:140-170 | a byte stored by one producer damages no other record |
| RingProtocol.PublishInv | redis-pool/src/queue.cpp:172-193 | publishing keeps the invariant and happens in the order of reservation |
| RingProtocol.ClaimInv | redis-pool/src/queue.cpp:213-228 | a claim keeps the invariant: a header read too late is discarded because the monotone cursor makes the swap fail |
| RingProtocol.CopyInv | redis-pool/src/queue.cpp:246-273 | copying a byte out keeps the invariant |
| RingProtocol.ReleaseInv | redis-pool/src/queue.cpp:275-297 | releasing keeps the invariant and hands back exactly the bytes of the message |
| RingProtocol.StepInv | redis-pool/src/queue.cpp:99-298 | every step of every thread keeps the invariant: D <= Q <= E <= P <= D + size, records one behind the other, published records intact, every live region owned by the one thread that made it, everything delivered true |
| RingRuns.ReplayConserves | redis-pool/src/queue.h:40-43 | in the reference queue what went in is what came out, in order, and what is still there |
| RingRuns.StepRefines | redis-pool/src/queue.cpp:99-298 | each step of the protocol is one operation of the reference queue, or none |
| RingRuns.EmptyIsTrue | redis-pool/src/queue.cpp:217-221 | "empty" is true at the moment m_enqueue_pos is read, however stale the position it is compared with |
| RingRuns.FullIsTrue | redis-pool/src/queue.cpp:127-136 | "full" is true at the moment m_dequeue_pos is read, even when the subtraction wraps; a current position is never let through without room |
| RingRuns.RunRefines | redis-pool/src/queue.cpp:99-298 | any run takes the reference queue from the messages waiting before to those waiting after |
| RingRuns.QueueIsFifo | redis-pool/src/queue.cpp:99-298 | from a fresh queue, in any interleaving of any number of threads: the history is one of a sequential FIFO queue, claimed messages are a prefix of published ones, and the k-th return of dequeue delivers the bytes of the k-th accepted message |
| RingRuns.PublishedBytesStable | redis-pool/src/queue.cpp:138-170 | between publication and release no step of any thread changes a byte of a record |
| RingRuns.ProducerAtHead | redis-pool/src/queue.cpp:172-193 | while a reservation is unpublished exactly one thread owns the region at m_enqueue_pos, and its next copy or commit is enabled |
| RingRuns.ConsumerAtHead | redis-pool/src/queue.cpp:275-297 | the same for claims and m_dequeue_pos |
| RingRuns.WorkFalls | redis-pool/src/queue.cpp:138-193 | each copy or effective commit lowers the outstanding work by exactly one; only winning a reservation or a claim raises it |
| RingRuns.NeverStuck | redis-pool/src/queue.cpp:172-193 | some thread can do real work exactly as long as any is outstanding; once none is, E = P and D = Q |
| RingRuns.DrainsInWork | redis-pool/src/queue.cpp:172-193 | no run of such steps is longer than the work there was, and one that is as long ends with E = P and D = Q |
| RingRuns.CanDrain | redis-pool/src/queue.cpp:172-193 | from every reachable state there is such a run, however many threads are in flight: all of them can finish, after exactly that many steps |
| RingDelivery.NothingLost | redis-pool/src/queue.cpp:231-244 | if every message sent has room at every receiver, then in any interleaving no return of dequeue has lost its bytes, and everything published was sent |
| RingDelivery.AllDelivered | redis-pool/src/queue.cpp:275-297 | as many messages were delivered as published exactly when m_dequeue_pos has met m_enqueue_pos, as once everything published is claimed and no thread is at work |
| RingDelivery.CanDeliver | redis-pool/src/queue.cpp:209-298 | from every reachable state with an idle thread some continuation, without new messages, delivers everything that ever got a reservation |
| RingOps.EnqueueStep | redis-pool/src/queue.cpp:125-202 | a thread inside enqueue returns exactly with the step that publishes its own message or finds no room; every other step, a lost swap included, leaves it inside with the same message |
| RingOps.DequeueStep | redis-pool/src/queue.cpp:213-298 | a thread inside dequeue returns exactly with the step that finds the queue empty or hands its outcome back; every other step, a lost swap included, leaves it inside |
| RingOps.NoneForgotten | redis-pool/src/queue.cpp:99-202 | in any run, the messages a thread called enqueue with are, in order, those accepted or refused and the one it is still working on |
| RingOps.NoneUnanswered | redis-pool/src/queue.cpp:209-298 | in any run, a thread has called dequeue as often as it was told "empty" or handed an outcome, and once more if it is still inside |
| RingOps.LostByMallocOnly | redis-pool/src/queue.cpp:231-244 | in any run from a fresh queue the k-th outcome is lost if and only if malloc failed for the k-th claim |
| RingOps.EnqueueAlone | redis-pool/src/queue.cpp:125-138 | however stale what it has read, a thread left alone leaves the retry loop of enqueue within six steps: the queue is full or the reservation is won |
| RingOps.DequeueAlone | redis-pool/src/queue.cpp:213-228 | the same for dequeue within thirteen: the queue is empty or the claim is won |
| RingOps.AllReturn | redis-pool/src/queue.cpp:99-298 | from every reachable state there is a continuation in which no thread starts anything and every operation in flight returns |
| RingLink.FillingIsFillRecord | redis-pool/src/queue.cpp:138-170 | a producer's byte steps in the protocol leave in the buffer what FillRecord leaves there |
| RingLink.CopyingIsReadRecord | redis-pool/src/queue.cpp:246-273 | a consumer's byte steps hand out what ReadRecord copies |
| ElementSet.ElementSet.Init | redis-pool/src/element_set.h:30-70 | fails exactly on 0, UINT_MAX, a second call or no memory; else all indices are free, in order |
| ElementSet.ElementSet.IsValidSubscript | redis-pool/src/element_set.h:89-92 | true exactly for the indices on the used list |
| ElementSet.ElementSet.PutElem | redis-pool/src/element_set.h:94-127 | -1 exactly for an index not in use; else it leaves the used list wherever it stood and becomes the free tail |
| ElementSet.ElementSet.GetElem | redis-pool/src/element_set.h:129-154 | the free head becomes the used front; END_OF_ELEMENT exactly when nothing is free |
| ElementSet.ElementSet.Uninit | redis-pool/src/element_set.h:20-87 | the walk by first and next visits every used index exactly once, in order, and ends; nothing happens to a set never initialised |
| ElementSet.UnlinkedChain | redis-pool/src/element_set.h:101-112 | unlinking any position of the doubly linked list leaves a well-linked list without it |
| ElementSet.PutMoves | redis-pool/src/element_set.h:94-127 | put as a whole on values: both chains stay well linked, the index moves from wherever it stood in the used one to the tail of the free one, payloads are untouched |
| ElementSet.TakenFreeChain | redis-pool/src/element_set.h:136-141 | get leaves a well-linked free list without its head |
| ElementSet.TakenUsedChain | redis-pool/src/element_set.h:143-151 | and a well-linked used list that begins with it |
| PoolShape.SizeKinds | redis-pool/src/memory_pool.cpp:6-26 | the 22 size classes and which of them are small, medium and big |
| PoolShape.SizeIsPower | redis-pool/src/memory_pool.cpp:24-30 | the blocks of bucket b have 2^(10 + b) bytes |
| PoolShape.CountIs | redis-pool/src/memory_pool.cpp:64-78 | thresholds and quotients come to 128 blocks for the buckets 0 to 7, 2^(14 - b) for 8 to 13, and 1 above |
| PoolShape.FitsUnique | redis-pool/src/memory_pool.cpp:50-62 | a request has one smallest class |
| PoolShape.FitsWithin | redis-pool/src/memory_pool.cpp:50-62 | a class exists exactly up to 2 GiB, and it is the last one exactly above 1 GiB |
| PoolShape.DeltaBounds | redis-pool/src/memory_pool.cpp:64-78 | an expansion adds at least one block, at most 16 MiB of small and medium ones or one big one, so the 32-bit product is exact |
| PoolShape.CountsAddUp | redis-pool/src/memory_pool.cpp:164-198 | in every bucket total_block_count = free_block_count + outstanding cookies |
| PoolShape.GrowOk | redis-pool/src/memory_pool.cpp:145-167 | adding a fresh block keeps the layered shape: acyclic disjoint lists through the payload, blocks owned once, counters right |
| PoolShape.TakeOk | redis-pool/src/memory_pool.cpp:193-198 | so does handing out the head of a list, and its cookie was in nobody's hands |
| PoolShape.GiveOk | redis-pool/src/memory_pool.cpp:214-217 | so does taking a cookie back |
| PoolShape.ShrinkOk | redis-pool/src/memory_pool.cpp:101-107 | so does giving a free block back to the system |
| PoolShape.RecycleExact | redis-pool/src/memory_pool.cpp:83-92 | within budget the 32-bit products of recycling are exact |
| PoolShape.BudgetAfter | redis-pool/src/memory_pool.cpp:115-128 | when the 32-bit budget test passes, the true total stays within 2 GiB, but for the one case of a 2 GiB block on top of 2 GiB |
| PoolShape.ReleaseKeepsIdle | redis-pool/src/memory_pool.cpp:80-97 | one recycling after a release restores the bound on idle memory: no free block above 8 MiB, at most 1 GiB free in any other class |
| PoolShape.RecycleIsSurplus | redis-pool/src/memory_pool.cpp:80-97 | recycling gives back nothing of up to 256 KiB; of big blocks half, rounded up; of others half if more are free than held or more bytes than the threshold |
| MemoryPool.MemoryPool.Init | redis-pool/src/memory_pool.cpp:17-35 | an empty pool, within budget and idle bounds; a second call fails and changes nothing |
| MemoryPool.MemoryPool.GetFitSize | redis-pool/src/memory_pool.cpp:50-62 | the smallest class that holds the request, INVALID_BLOCK_SIZE if there is none |
| MemoryPool.MemoryPool.RecycleCertain | redis-pool/src/memory_pool.cpp:80-111 | frees from the head of one list exactly as many blocks as its size class, the number free and the number held say; no outstanding cookie is affected and the accounting follows |
| MemoryPool.MemoryPool.RecycleAll | redis-pool/src/memory_pool.cpp:119-122 | gives back of every bucket what its own count says: the total falls by exactly those bytes, the slab gains exactly those elements, and no outstanding cookie is affected |
| MemoryPool.MemoryPool.Admit | redis-pool/src/memory_pool.cpp:117-128 | the growth is admitted exactly when the 32-bit sum passes after recycling; what recycling gives back, nothing if the sum passed before, is told exactly by the state before the call |
| MemoryPool.MemoryPool.Fill | redis-pool/src/memory_pool.cpp:130-170 | adds as many blocks as the least of the asked-for count, the mallocs that succeed and the free elements of the slab; -1 exactly when that is none |
| MemoryPool.MemoryPool.ExpandPool | redis-pool/src/memory_pool.cpp:113-171 | adds, if the 32-bit test passes after recycling, the least of 128, 2^(14 - b) or 1 (by the bucket), the mallocs that succeed and the slab elements free after recycling, and otherwise none; 0 exactly when it adds any; nobody's block is touched; a pool within budget leaves it exactly if it held 2 GiB, the class is the last one, and malloc and the slab have something to give |
| MemoryPool.MemoryPool.Alloc | redis-pool/src/memory_pool.cpp:173-202 | a block of the smallest fitting class under a cookie that was in nobody's hands, all other holdings unchanged; null if and only if no class fits, or its list is empty and the expansion adds nothing, for the reasons that the state before the call gives, and then nothing is handed out; the slab elements and the free blocks of the bucket left are told exactly; idle bounds kept; a pool within budget leaves it exactly if it held 2 GiB with no free block of the last class, the request is above 1 GiB, and malloc and the slab have something to give |
| MemoryPool.MemoryPool.Release | redis-pool/src/memory_pool.cpp:204-223 | exactly that cookie leaves the hands of its holder and goes before its list; then exactly the surplus is cut from the head of that list and leaves the total and the slab; idle bounds kept |
| MemoryPool.MemoryPool.HeldBlocksDiffer | redis-pool/src/memory_pool.cpp:193-197 | two outstanding cookies never share a block |
| MemoryPool.TwoBigBlocks | redis-pool/src/memory_pool.cpp:115-128 | two requests for 2 GiB break the budget of a fresh pool |
| MemoryPool.FirstKilobyte | redis-pool/src/memory_pool.cpp:64-78 | the first KiB asked of a fresh pool leaves 127 free blocks in the first bucket |
| Cache.Cache.Skip | redis-pool/src/cache.cpp:8-27 | drops a prefix, or everything and with it the block; other holders of the pool are unaffected |
| Cache.Cache.Regrow | redis-pool/src/cache.cpp:36-59 | the bytes move unchanged to the front of a block with room; it fails exactly if the pool cannot serve the larger block, and then nothing changes |
| Cache.Cache.MoveTo | redis-pool/src/cache.cpp:45-58 | exchanging the blocks keeps the bytes and gives back the old block only |
| Cache.Cache.Place | redis-pool/src/cache.cpp:61-70 | in place or after compaction, the new bytes come right behind the old ones, and the 32-bit test never wraps |
| Cache.Cache.Append | redis-pool/src/cache.cpp:29-74 | appends all of the data or, with -1, changes nothing; 0 if and only if the bytes fit the block at hand, which is then kept, or the pool can serve a larger one; holds a block exactly when non-empty, shares it with no other holder and touches no other block |
| Cache.NeverWraps | redis-pool/src/cache.cpp:61 | offset + data_len + len stays below 2^32 wherever it is computed |
| Cache.ReachTheTop | redis-pool/src/cache.cpp:61 | and is 2^32 - 1 in the last of three calls on a fresh pool: append 2 GiB, skip all but one byte, append 2 GiB - 1 |
| Cache.AppendBeside | redis-pool/src/cache.cpp:29-74 | two caches on one pool never share a block, and an append to one leaves the bytes of the other as they were |
| Cache.SkipBeside | redis-pool/src/cache.cpp:8-27 | nor does a skip |
| SocketCache.SendDataCache | redis-pool/src/socket_set.cpp:178-227 | write is called exactly on a connected socket with a non-empty cache, with exactly the cached bytes, until it is not interrupted; its last answer decides: n bytes taken gives n, would-block gives 0 and changes nothing, broken if and only if -4, and the cache is dropped; what is on the wire followed by what is cached stays the same otherwise; -2 and -3 exactly for no socket and an unconnected one |
| HashMix.XorCancels | redis-pool/src/HashNodes.h:77-79 | `^` with the same word twice changes nothing |
| HashMix.XorShifts | redis-pool/src/HashNodes.h:77 | `>>` distributes over `^` |
| HashMix.ShiftDivides | redis-pool/src/HashNodes.h:77 | `>>` divides by a power of two |
| HashMix.XorShiftTwice | redis-pool/src/HashNodes.h:94-96 | xor-shift by 47 undoes itself on 64-bit words |
| HashMix.TimesUndone | redis-pool/src/HashNodes.h:67-80 | multiplying by the odd constant modulo 2^64 is undone by multiplying by another |
| HashMix.MixBijective | redis-pool/src/HashNodes.h:76-78 | the block mix is a bijection on 64-bit words |
| HashMix.FinaliseBijective | redis-pool/src/HashNodes.h:94-96 | so is the finaliser |
| HashMix.AbsorbInjective | redis-pool/src/HashNodes.h:79-91 | absorbing a block, full or tail, loses neither the state nor the block |
| HashMix.WordInjective | redis-pool/src/HashNodes.h:74-89 | equal words come from equal blocks of one length |
| HashMix.StatesDiffer | redis-pool/src/HashNodes.h:73-92 | two keys of one length that differ in one block have different states from that block on, and only then |
| HashMix.OneBlockChangesHash | redis-pool/src/HashNodes.h:64-96 | keys of one length that differ within one 8-byte block, zero-padded tail included, have different 64-bit hashes |
| HashMix.Hash | redis-pool/src/HashNodes.h:64-99 | the loop computes Hash32, which the lemmas of HashMix and HashValues characterise |
| HashValues.XorBit | redis-pool/src/HashNodes.h:77-79 | a bit of `^` is set if exactly one side has it |
| HashValues.XorShiftFolds | redis-pool/src/HashNodes.h:77 | h ^= h >> 47 keeps the quotient by 2^17 and sets the remainder to that of h against the quotient by 2^47 |
| HashValues.StartIs | redis-pool/src/HashNodes.h:69 | the state starts as 0x1234ABCD against the length times the multiplier modulo 2^64 |
| HashValues.AbsorbIs | redis-pool/src/HashNodes.h:75-90 | a full block is multiplied, folded and multiplied before it is taken in, a tail is not; the state is multiplied after either |
| HashValues.FinaliseIs | redis-pool/src/HashNodes.h:94-96 | the finaliser folds, multiplies modulo 2^64 and folds again |
| HashValues.WordBytes | redis-pool/src/HashNodes.h:74-89 | byte i of a block is the i-th lowest of its word |
| HashValues.EmptyKey | redis-pool/src/HashNodes.h:64-99 | the empty key has the hash 0xAA627B0B |
| HashValues.OneByteKey | redis-pool/src/HashNodes.h:64-99 | "a" has the hash 0x1217E2FD |
| HashValues.NineByteKey | redis-pool/src/HashNodes.h:64-99 | "key:12345", a full block and a tail, has the hash 0xBE0C7A0E |
| HashRing.OwnsItsArc | redis-pool/src/HashNodes.h:29-45 | a point is the cyclic successor of exactly the hashes in the half-open arc that ends in it |
| HashRing.OwnedIsArc | redis-pool/src/HashNodes.h:29-45 | so it owns as many hashes as the arc is long |
| HashRing.ArcsFillCircle | redis-pool/src/HashNodes.h:29-45 | the arcs of all points add up to 2^32 |
| HashRing.PutRedirectsOneArc | redis-pool/src/HashNodes.h:20-45 | a put on a free point redirects exactly the hashes of one arc, all to the new node; on an occupied point it changes nothing |
| HashRing.PutMovesArc | redis-pool/src/HashNodes.h:20-45 | the number of hashes that change hands is the length of that arc |
| HashRing.PutsCommute | redis-pool/src/HashNodes.h:20-27 | two puts commute if and only if they do not race for one free point with different nodes |
| HashRing.HashNodes.PutNode | redis-pool/src/HashNodes.h:20-27 | inserts the node at the hash of its key unless the point is taken |
| HashRing.HashNodes.GetNode | redis-pool/src/HashNodes.h:29-45 | find, upper_bound and begin together return the node of the cyclic successor |
| Pipeline.RunCommand | redis-pool/src/_RedisHeader.cpp:373-396 | redisvCommand hands back the oldest reply that is owed, whatever it answers |
| Pipeline.RedisCtx.Conn | redis-pool/src/_RedisHeader.cpp:53-86 | a live connection has answered authentication and database choice without error and owes nothing; else there is none |
| Pipeline.RedisCtx.AuthDb | redis-pool/src/_RedisHeader.cpp:103-121 | authentication where there is a password, nothing otherwise; closed on failure |
| Pipeline.RedisCtx.SelectDb | redis-pool/src/_RedisHeader.cpp:88-101 | the database is chosen or the connection closed |
| Pipeline.RedisCtx.Execute | redis-pool/src/_RedisHeader.cpp:545-573 | whenever a reply came, it is the oldest owed one and the answer is true exactly if it is no error; false without a reply |
| Pipeline.RedisCtx.Close | redis-pool/src/_RedisHeader.cpp:575-583 | no context, no count |
| Pipeline.RedisCtx.Reconn | redis-pool/src/_RedisHeader.cpp:42-45 | whatever the state was, the connection is new or absent and aligned; the one in use is given up as it stood, and any other that was given up took nothing but its login |
| Pipeline.RedisCtx.Operation | redis-pool/src/_RedisHeader.cpp:123-144 | keeps the alignment of owed replies and m_appCnt; the reply is the caller's own if and only if m_appCnt was 0; without one the connection was given up having taken at most this command, and is renewed |
| Pipeline.RedisCtx.QueryDebug | redis-pool/src/_RedisHeader.cpp:348-371 | keeps the alignment; on a connection that owes nothing the reply is its own; on failure the connection was given up having taken at most this command, and is renewed |
| Pipeline.RedisCtx.GetPatternKeys | redis-pool/src/_RedisHeader.cpp:237-294 | the names kept are a subsequence of those the reply lists, each as often as there, and none that is spared |
| Pipeline.LeftUnique | redis-pool/src/_RedisHeader.cpp:237-294 | that determines the names and their order |
| Pipeline.RedisCtx.DelKeys | redis-pool/src/_RedisHeader.cpp:296-321 | one DEL for each name, in order |
| Pipeline.RedisCtx.DelPatternKeys | redis-pool/src/_RedisHeader.cpp:185-235 | keeps the alignment; on a connection that owes nothing, what is deleted is exactly what Redis listed for this pattern, without the spared names; a call that fails on the way has sent no other DEL than the first of these, and the connection is renewed |
| Pipeline.RedisCtx.GetReplies | redis-pool/src/_RedisHeader.cpp:468-528 | collects every owed reply, in order, or fails; m_appCnt is 0 |
| Pipeline.RedisCtx.AppendV | redis-pool/src/_RedisHeader.cpp:406-442 | the command is the next one on the connection; every 5000th collects all replies |
| Pipeline.RedisCtx.AppendCmd | redis-pool/src/_RedisHeader.cpp:323-346 | keeps the alignment and m_appCnt < 5000; a failed append gives the connection up, having taken at most this command, and renews it |
| Pipeline.RedisCtx.Commit | redis-pool/src/_RedisHeader.cpp:444-466 | afterwards nothing is owed; on success every command taken has been answered, in order |
| Pipeline.MixedUse | redis-pool/src/_RedisHeader.cpp:123-144 | after an uncommitted append, a synchronous call that succeeds is given the appended command's reply |
| Pipeline.DbBase.Add | redis-pool/src/DbBase.cpp:56-78 | a new connection joins the ring: every name whose point was free leads to it, none is displaced, and on a ring that was not empty every hash keeps its connection or goes to the new one; true exactly if it is connected |
| Pipeline.DbBase.Init | redis-pool/src/DbBase.cpp:244-263 | on success every server of the configuration was added and is connected, and the ring is not empty |
| Pipeline.DbBase.DelPatternKeys | redis-pool/src/DbBase.cpp:133-173 | if the pattern is illegal nothing happens; else, where no replies are owed, every connection has exchanged KEYS for this very pattern and then DEL for exactly the names its own reply lists without the spared ones, each command answered in order, or it was given up having sent no other DEL than the first of these, and is renewed |
| Pipeline.DbBase.QueryDebug | redis-pool/src/DbBase.cpp:175-182 | where no replies are owed, the node of the key is renewed or has exchanged this very query for its own reply without error; all others are untouched |
| Pipeline.DbBase.Operation | redis-pool/src/DbBase.cpp:92-103 | served by the node of the key, all others untouched; where no replies are owed, a reply is the answer to this very request, and without one the connection is renewed |
| Pipeline.DbBase.AppendCmd | redis-pool/src/DbBase.cpp:184-197 | accepted, it is the next command taken by the node of the key, and every 5000th collects all replies; refused, that node is given up and renewed; all others are untouched |
| Pipeline.DbBase.Commit | redis-pool/src/DbBase.cpp:199-206 | the node of the key has a reply for every command it took, unless it broke and is renewed; all others are untouched |
| Pipeline.DbBase.CommitAll | redis-pool/src/DbBase.cpp:208-220 | every connection has a reply for every command it took, unless it broke and is renewed |
| Pipeline.DbPool.Init | redis-pool/src/DbConn.cpp:81-90 | connects both sides; on success the pool can serve, and its read side owes nothing |
| Pipeline.DbPool.Serve | redis-pool/src/DbConn.cpp:29-70 | whatever the call, its effect on each connection of both sides is that of the call alone: operation and queryDebug exchange one request for its own reply at the read node of the key, delPatternKeys sends no DEL but for what that connection listed for this pattern, even where it fails on the way, an accepted append is the next command at the write node of the key, commits collect every reply owed; the other side is untouched and the read side owes nothing afterwards |
| Pipeline.DbPool.Run | redis-pool/src/DbConn.cpp:29-70 | in any sequence of calls, with hiredis failing anywhere, each call takes the connections of both sides from one state of a trail to the next with just that effect: synchronous calls get their own replies or none, accepted appends are taken |
| Pipeline.Session | redis-pool/src/DbConn.cpp:14-90 | the same from the making of the pool on |
| Framing.UnframeFrames | redis-pool/src/redis_client.cpp:797-814 | taking apart any concatenation of packets returns the same packets |
| Framing.FramesUnframe | redis-pool/src/redis_client.cpp:797-814 | and only concatenations of packets can be taken apart |
| Framing.FrameOfGet | redis-pool/src/redis_client.cpp:306-314 | the packet of key "k" and command "GET", byte for byte |
| Framing.TakeApart | redis-pool/src/redis_client.cpp:797-815 | the parse loop ends and returns exactly those packets |
| Framing.Client.AppendCmd | redis-pool/src/redis_client.cpp:260-319 | puts one packet into the queue, or says why not: no key, no command, no room |
| Framing.Client.ProcessRequestQueue | redis-pool/src/redis_client.cpp:781-868 | every waiting command is taken out once, in order, and looked up with its own key |
| Framing.EveryCommandOnce | redis-pool/src/redis_client.cpp:781-868 | with any number of threads at both ends of the queue, in any interleaving: what has been delivered parses to exactly the first packets accepted, in order, none lost, each command going to the node of its own key; these are all packets exactly when m_dequeue_pos has met m_enqueue_pos, as once everything published is claimed and nobody is at work |
| Framing.EveryCommandArrives | redis-pool/src/redis_client.cpp:260-319 | and from every point of such a run at which a thread is free to dispatch, the run can be continued, without new commands, until every command accepted or being filled by then has gone to the node of its own key |
| Hex.DumpHex1 | redis-pool/src/util.c:152-177 | writes the text of the first min(len, output_len / 3) or min(len, (output_len - 1) / 2) bytes and a NUL, and nothing else; 0 exactly when that is all of them |
| Hex.DigitCodes | redis-pool/src/util.c:24-42 | the sixteen digits are those of ASCII, in lower case |
| Hex.ByteReads | redis-pool/src/util.c:24-42 | the two characters of a byte read as its number, the higher digit first |
| Hex.HexTextAt | redis-pool/src/util.c:160-169 | byte i stands at column 2i, or 3i with a blank behind it |
| Hex.Str2Hex | redis-pool/src/util.c:274-334 | the two-state loop accepts, refuses and decodes as the grammar of digit pairs says |
| Hex.AcceptedExactly | redis-pool/src/util.c:287-333 | accepted are exactly the texts of blanks and digits in which every run of digits has even length |
| Hex.ParsePrinted | redis-pool/src/util.c:152-334 | parsing what was printed gives the bytes back |
| Hex.PrintThenParse | redis-pool/src/util.c:152-334 | str2hex with length -1 on the printer's buffer returns exactly the bytes that there was room for, at every buffer size |
| Hex.PrintParsed | redis-pool/src/util.c:152-334 | printing what was parsed gives the text in lower case without blanks |
| Hex.PrintParsedSpaced | redis-pool/src/util.c:152-334 | or with one blank between bytes |
| HexDump.ToPrintable | redis-pool/src/util.c:69-88 | as many characters as fit and a NUL, and nothing else |
| HexDump.Printable | redis-pool/src/util.c:44-62 | the table shows printable ASCII as itself and all else as a dot |
| HexDump.NumberReads | redis-pool/src/util.c:217 | the address reads as its number, without a leading zero |
| HexDump.PaddedReads | redis-pool/src/util.c:217 | padding puts only zeros in front of it |
| HexDump.AddressWidth | redis-pool/src/util.c:193-201 | the shift loop computes the number of digits of the last address, made even |
| HexDump.TwoDigits | redis-pool/src/util.c:197 | eight bits less are two digits less |
| HexDump.LineSize | redis-pool/src/util.c:207-266 | every address has that width, and every line 52 more characters and one for each byte |
| HexDump.LineFrame | redis-pool/src/util.c:207-266 | every line begins with an address that reads its offset, a colon and a blank, and ends with a newline |
| HexDump.LineColumns | redis-pool/src/util.c:207-266 | byte i of a line stands in hexadecimal at column W + 2 + 3i and as a character at column W + 51 + i |
| HexDump.LineBlanks | redis-pool/src/util.c:207-266 | and every other column up to W + 51 is blank |
| HexDump.LineAt | redis-pool/src/util.c:207-266 | the k-th line begins after k lines of W + 68 characters |
| HexDump.DumpSize | redis-pool/src/util.c:182-272 | the length of the whole text is ceil(len / 16) * (W + 52) + len |
| HexDump.ShownIsBeginning | redis-pool/src/util.c:182-272 | what a buffer of any size shows is a beginning of the text that fits with its NUL, and the whole text if and only if that fits |
| HexDump.PutLine | redis-pool/src/util.c:207-266 | one turn of the loop completes its line exactly when the line and one more character fit; else it leaves as much of it as the column it stops in allows, and a NUL |
| HexDump.DumpHex2 | redis-pool/src/util.c:182-272 | 0 if and only if output_len >= ceil(len / 16) * (W + 52) + len + 1; on every path the buffer holds exactly what fits of the text and a NUL and is untouched elsewhere, in particular from output_len on |

## Left out

- Weak memory ordering: the protocol is sequentially consistent, one access at a time.
- 64-bit wrap-around of the four cursors: a reservation is only considered while the cursor stays below 2^63.
- The callback m_on_enqueued, the spin counts and sched_yield.
- Queue.uninit, memory_pool_t::uninit and the virtual destructors: they only free memory.
- RingQueue.Queue.Enqueue: one thread only; the concurrent claims are those of RingProtocol and RingRuns.
- RingQueue.Queue.Dequeue: one thread only; the concurrent claims are those of RingProtocol and RingRuns.
- MemoryPool.MemoryPool.Release: the cookie must be outstanding and the size of its class; the source does not check a foreign cookie (memory_pool.cpp:214).
- The pool's mutex: each call of the pool is one atomic step.
- Bytes written by a holder through a block's pointer are seen only in Cache and SocketCache; the pool itself never reads them.
- HashRing.HashNodes.GetNode: on an empty ring the source dereferences the end of the map (HashNodes.h:44), so the ring must have a point.
- HashMix.Hash: key lengths are not cut to a signed 32-bit int as line 73 does; the two agree below 2^31.
- HashNodes::clear, size and dsp.
- Pipeline: what is in a command and in a reply beyond whose it is and whether it is an error; the reply objects and their freeing; the lock of RedisCtx; operationCmd, which repeats operation.
- Pipeline: which names contain `except` and which patterns are legal are parameters (_RedisHeader.cpp:256, DbBase.cpp:117-131).
- AsynCtx, AsynDbPool, DbRead and DbWrite: wrappers of the same calls.
- Framing.TakeApart: the message must be whole packets, as everything that append_cmd enqueues is; the source parses any bytes unchecked.
- Framing.Client.AppendCmd: key and command together must fit the 1 MiB buffer of the call, which the source does not check; formatting the command is a parameter.
- Framing.Client.ProcessRequestQueue: whether a command then reaches send_data, which a failed reconnect prevents, and what that does; nobody appends during the call; no bound by total_len, which the source never advances (redis_client.cpp:784).
- send_data as a lossless stream: it drops the new message on four paths (socket_set.cpp:70, 89, 98-100, where write would block after the cache has gone out, and 141), so only send_data_cache is modelled.
- SocketCache.SendDataCache: `interrupts` bounds how often write is interrupted in a row; the source would retry for ever.
- HexDump.DumpHex2: the buffer or the text must end before 2^31, where the int offset of the source overflows.
- Hex.DumpHex1: sizes for which j + 3 does not pass 2^32; the data is not part of the output buffer.
- Sockets, epoll, daemonize, signals, JSON configuration, logging, and the easy helpers of util.c (to_printable without a count, lowerstr, strip2int, the str2* checks).
