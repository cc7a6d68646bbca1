# A verified model of the xv6 lab kernel's buffer cache, COW page allocator, and utilities

This Dafny project models five pieces of logic from the xv6 labs:

- **Block buffer cache** (`kernel/bio.c`, modules `Bio` and `BioProofs`).
  - `NBUF` buffers are spread over 13 hash buckets.
  - Each bucket is a chain of buffer indices.
  - A block is looked up in the bucket `BUFMAP_HASH(dev, blockno)`.
  - On a miss, the least recently used eligible buffer of all buckets is recycled. It is unlinked from its chain and pushed on the front of the block's bucket.
  - `bread`, `bwrite`, `brelse`, `bpin` and `bunpin` are modelled on top of the lookup.
  - The sleep lock of a buffer is a `held` flag.
- **Physical page allocator** with copy-on-write reference counts (`kernel/kalloc.c`, module `Kalloc`).
  - The free list is a sequence of page addresses.
  - `pageref` maps a counter index to a signed count.
  - Page contents map each page address to its bytes.
  - Modelled operations: `kfree`, `kalloc`, `kcopy_n_deref`, `krefpage`, `freerange` and `kinit`.
- **Regular-expression matcher** of `find` (`user/find.c`, module `Find`).
  - `match`, `matchhere` and `matchstar` are recursive functions on strings.
  - They are proved to decide an independent semantics of patterns as sequences of atoms.
- **User-copy bounds checks** (`kernel/vmcopyin.c`, module `CopyIn`).
  - `copyin_new` and `copyinstr_new` work on a byte image of user memory whose length is the process size `sz`.
  - The 64-bit wrap of `srcva+len` is written out.
- **`xargs` tokenizer** (`user/xargs.c`, module `Xargs`).
  - The loop of `main` is a function from the input and `argv` to the list of argument vectors handed to `run`.
  - It is proved equal to a line-and-field description of the input.

Module `Outcomes` holds the `Ok`/`Panic` result type and `Option`.

Spin locks are abstracted away: each operation is one atomic step of a sequential state machine. There is one exception. The inserting phase of `bget` (`Bio.InsertPhase`, bio.c:163-208) is also studied on any state that satisfies the cache invariant with this call's victim as the only detached buffer. Such a state need not be reachable by sequential calls: another CPU may have inserted the block meanwhile. This covers the re-check branch, which a sequential run never takes. States where a second CPU's victim is detached at the same time are not covered.

bio.c has only the per-bucket locks `bufmap_locks` (bio.c:34); nothing serialises two evictions against each other.

`kfree` puts a page back on the free list when `--count <= 0` (kalloc.c:70), not only when the count reaches exactly 0, so the pages `kinit` frees from a zeroed counter array sit at count -1.

Two invariants are proved for the cache:
- **`Bio.CacheInv`**, between calls:
  - every buffer lies in exactly one chain;
  - no block is cached twice;
  - every live buffer lies in its block's bucket.
- **`Bio.SeqInv`**, kept by every sequence of calls from `binit`:
  - `CacheInv` holds;
  - trash buffers have no references and last use 0;
  - only live buffers are locked.

The allocator's invariant `Kalloc.Inv` says:
- the free list has no duplicates;
- every managed page is either free with count at most 0, or in use with count at least 1.

## Model

| member | source | states |
|---|---|---|
| `Bio.Key` | kernel/bio.c:26-27 | The bucket number is below 13. |
| `BioProofs.KeyUsesLowDevBits` | kernel/bio.c:27 | `dev<<27` wraps at 32 bits, so only the low five bits of the device reach the bucket number. |
| `BioProofs.KeyOfDeviceZero` | kernel/bio.c:27 | On device 0 the bucket is the block number modulo 13. |
| `Bio.InsertBucket` | kernel/bio.c:38-42 | The buffer is pushed on the front of the chain; the other chains and the buffers are unchanged. |
| `Bio.Binit` | kernel/bio.c:44-65 | `binit` leaves `nbuf` buffers, every one trash, not valid, unlocked, with refcnt 0 and lastuse 0. Buffer `i` is in bucket `k` iff `k == i % 13`, and every chain lists its buffers in decreasing index order, since each is pushed on the front. The state satisfies `SeqInv`, so every buffer is in exactly one chain. |
| `Bio.Search` | kernel/bio.c:70-79 | The search returns none iff no buffer of the chain is the live copy of the block; otherwise it returns the first buffer of the chain that is. |
| `BioProofs.SearchFindsCached` | kernel/bio.c:70-79 | Under the cache invariant, the search of the block's bucket succeeds iff some buffer caches the block, and then returns exactly that buffer. |
| `Bio.ScanChain` | kernel/bio.c:134-139 | After the inner loop over chain `k`, the choice is the first eligible position of minimal `lastuse` among all positions up to the end of chain `k`. |
| `Bio.Scan` | kernel/bio.c:128-147 | After the outer loop, the choice is the first eligible position of minimal `lastuse` over all 13 chains. |
| `Bio.Victim` | kernel/bio.c:126-150 | The victim is none iff no position is eligible (then `bget` panics). Otherwise it is eligible, no eligible buffer has a smaller `lastuse`, and every eligible buffer before it in bucket-then-chain order has a strictly larger `lastuse`, so ties go to the first found. |
| `BioProofs.VictimRulesAgree` | kernel/bio.c:134-139 | Whenever trash buffers are idle, the scan with the test as written at line 135 and the scan with the intended test choose the same position. |
| `BioProofs.AsWrittenVictimIsFree` | kernel/bio.c:135 | Whenever trash buffers are idle, the scan as written never chooses a buffer with a nonzero reference count. |
| `BioProofs.VictimIsFree` | kernel/bio.c:135 | Whenever trash buffers are idle, the intended scan never chooses a referenced buffer. |
| `Bio.Unlink` | kernel/bio.c:156 | `before_least->next = newb->next` removes exactly that position from its chain; the other chains are unchanged. |
| `Bio.MissKeepsPartition` | kernel/bio.c:152-197 | Unlinking the victim leaves it attached to no chain. Pushing it on the block's bucket makes every buffer lie in exactly one chain again. Every other buffer keeps its chain. |
| `Bio.Lookup` | kernel/bio.c:84-209 | `bget` under the bucket locks. It panics with "bget: no buffers" iff the block is not cached and no buffer passes the test of line 135 as written. On a hit the result is the cache with that buffer's refcnt one higher and nothing else changed. On a miss the result is the index of the victim the scan as written chooses. The returned buffer is the live copy of the block, every buffer is still in exactly one chain, and no other live buffer changes. |
| `Bio.Recycle` | kernel/bio.c:151-208 | On a miss, the victim becomes the live copy of the block: trash 0, valid 0, refcnt 1, the other fields kept. It sits in the block's bucket. Every other buffer is unchanged and keeps its chain. |
| `BioProofs.RecycleMovesToFront` | kernel/bio.c:152-197 | A victim from another bucket is unlinked from its chain and pushed on the front of the block's bucket, and no other chain changes. A victim already in the block's bucket leaves all chains as they were. |
| `BioProofs.LookupKeepsInv` | kernel/bio.c:84-209 | A lookup that does not panic keeps the cache invariant: exactly one chain per buffer, no block cached twice, every live buffer in its block's bucket. |
| `BioProofs.RecycleKeepsInv` | kernel/bio.c:151-208 | The miss path keeps the cache invariant. |
| `BioProofs.InsertPhaseKeepsInv` | kernel/bio.c:163-208 | On any state satisfying the invariant in which only the victim is detached (or the victim was left in the block's bucket), the inserting phase restores the cache invariant. The buffer it returns caches the requested block. |
| `BioProofs.RecheckHitResult` | kernel/bio.c:169-188 | When the re-check finds the block, that buffer is returned with one more reference. A victim from another bucket goes on the front of the block's bucket as trash with lastuse 0, its other fields kept. A victim from the same bucket leaves the cache otherwise unchanged. No other chain and no other buffer changes. |
| `BioProofs.RecheckHitKeepsInv` | kernel/bio.c:169-188 | The re-check branch restores the cache invariant and returns the block's live copy. |
| `BioProofs.ParkKeepsInv` | kernel/bio.c:170-179 | Parking the detached victim as trash in the block's bucket, with one more reference on the found buffer, restores the cache invariant. |
| `BioProofs.NoOtherCopy` | kernel/bio.c:169 | When the re-check of the block's bucket finds nothing, no buffer other than the victim caches the block. |
| `BioProofs.RecheckMissKeepsInv` | kernel/bio.c:190-208 | When the re-check finds nothing, relabelling and inserting the victim restores the cache invariant, and the victim caches the block. |
| `Bio.AcquireSleep` | kernel/bio.c:99 | The lock is taken and nothing else changes. The caller sleeps iff the lock was already held. |
| `BioProofs.AcquireKeepsSeqInv` | kernel/bio.c:207 | Locking a live buffer keeps the sequential invariant. |
| `Bio.Bget` | kernel/bio.c:84-209 | `bget` panics iff the lookup does, so with the victim test as written. Otherwise it returns the locked live copy of the block, and every buffer is still in exactly one chain. |
| `BioProofs.LookupKeepsSeqInv` | kernel/bio.c:84-209 | From a state reached by sequential calls, a lookup keeps the sequential invariant, and a miss recycles only an unreferenced buffer, although line 135 tests the predecessor's trash flag. |
| `BioProofs.RecycleKeepsSeqInv` | kernel/bio.c:151-208 | Recycling an unreferenced victim keeps the sequential invariant. |
| `BioProofs.BgetKeepsSeqInv` | kernel/bio.c:84-209 | `bget` keeps the sequential invariant. |
| `Bio.ReadIn` | kernel/bio.c:218-221 | A buffer without valid data that the caller holds becomes valid. A buffer that was valid is left exactly as it was. Nothing but `valid` changes. |
| `BioProofs.ReadInKeepsSeqInv` | kernel/bio.c:218-221 | Marking the data valid keeps the sequential invariant. |
| `Bio.Bread` | kernel/bio.c:212-223 | `bread` panics iff `bget` does. Otherwise it returns the live copy of the block, locked and valid when the caller did not have to sleep. |
| `BioProofs.BreadKeepsSeqInv` | kernel/bio.c:212-223 | `bread` keeps the sequential invariant. |
| `Bio.Bwrite` | kernel/bio.c:226-232 | `bwrite` panics with "bwrite" iff the lock is not held, and otherwise changes no metadata. |
| `Bio.Brelse` | kernel/bio.c:235-251 | `brelse` panics with "brelse" iff the lock is not held. Otherwise it releases the lock and decrements refcnt with 32-bit wrap. `lastuse` becomes `ticks` exactly when the new refcnt is 0. No other field or buffer changes. |
| `BioProofs.BrelseKeepsSeqInv` | kernel/bio.c:235-251 | `brelse` keeps the sequential invariant. |
| `Bio.Bpin` | kernel/bio.c:253-260 | `bpin` increments refcnt with 32-bit wrap, and nothing else changes. |
| `BioProofs.BpinKeepsSeqInv` | kernel/bio.c:253-260 | `bpin` by the holder keeps the sequential invariant. |
| `Bio.Bunpin` | kernel/bio.c:262-269 | `bunpin` decrements refcnt with 32-bit wrap, and nothing else changes. |
| `BioProofs.BunpinKeepsSeqInv` | kernel/bio.c:262-269 | `bunpin` by the holder keeps the sequential invariant. |
| `BioProofs.StaleTrashInv` | kernel/bio.c:135 | This state satisfies the cache invariant, but one of its trash buffers is not idle. |
| `BioProofs.AsWrittenEvictsReferenced` | kernel/bio.c:135 | On that state, the test as written chooses the referenced, locked buffer that follows the trash buffer. |
| `BioProofs.IntendedSkipsReferenced` | kernel/bio.c:135 | On the same state, the intended test chooses the trash buffer. |
| `Kalloc.RefIdInRange` | kernel/kalloc.c:27-28 | `PA2PGREF_ID` maps every address below `PHYSTOP` into the counter array, and distinct pages to distinct counters. |
| `Kalloc.Kfree` | kernel/kalloc.c:61-85 | `kfree` panics iff `pa` is unaligned, below `end` or at or above `PHYSTOP`. Otherwise the page's count drops by exactly one. The page is filled with 1s, apart from the free-list link, and pushed on the head of the free list iff the new count is at most 0; otherwise the free list and the contents are untouched. |
| `Kalloc.KfreeKeepsInv` | kernel/kalloc.c:61-85 | `kfree` of a page with count at least 1 keeps the allocator invariant. |
| `Kalloc.DoubleFreeDuplicates` | kernel/kalloc.c:61-85 | There is no double-free guard: `kfree` of a page already on the free list puts it there twice. |
| `Kalloc.Kalloc` | kernel/kalloc.c:90-109 | `kalloc` returns 0 iff the free list is empty, and then changes nothing. Otherwise it returns the head page, removes it from the list, fills it with 5s and sets its count to 1. |
| `Kalloc.KallocKeepsInv` | kernel/kalloc.c:90-109 | `kalloc` keeps the allocator invariant. |
| `Kalloc.KcopyNDeref` | kernel/kalloc.c:116-134 | With count at most 1, the page itself is returned and nothing changes. With count above 1 and no free page, 0 is returned and nothing changes. Otherwise the free list's head is returned, with count 1 and a copy of the original's contents, and the original's count drops by one. No other count changes. |
| `Kalloc.KcopyKeepsInv` | kernel/kalloc.c:116-134 | Under the invariant, the fresh page is never the original, so it receives the original's contents. The invariant is kept. |
| `Kalloc.Krefpage` | kernel/kalloc.c:137-141 | `krefpage` increments only `pa`'s count. |
| `Kalloc.KrefpageKeepsInv` | kernel/kalloc.c:137-141 | `krefpage` of a page that is not free keeps the invariant. |
| `Kalloc.CopyOnWriteRoundTrip` | kernel/kalloc.c:90-141 | Allocate, share and copy twice: the first owner gets a fresh page with equal contents and the original falls back to count 1. The second owner gets the original back, and the invariant holds throughout. |
| `Kalloc.Freerange` | kernel/kalloc.c:48-55 | `freerange` panics iff some whole page from `PGROUNDUP(start)` below `end` is not managed. Otherwise each such page's count drops by one, and those whose count was at most 1 are filled with 1s, apart from the free-list link. When they all started at count 0, they are all on the free list, highest address first. |
| `Kalloc.Kinit` | kernel/kalloc.c:40-46 | `kinit` does not panic and establishes the allocator invariant. Every managed page ends on the free list, highest first, with count -1 and filled with 1s, apart from the free-list link. |
| `Find.MatchCorrect` | user/find.c:9-17 | `match` holds iff the pattern matches: at the start of the text after a leading `^`, at some suffix (the empty one included) otherwise. |
| `Find.MatchAnywhereSuffixes` | user/find.c:12-16 | The do-while loop of `match` succeeds iff `matchhere` holds on some suffix of the text, the empty suffix included. |
| `Find.MatchHereCorrect` | user/find.c:20-30 | `matchhere` holds iff some prefix of the text is spelled by the pattern's atoms, and that prefix is the whole text when the pattern ends in `$`. |
| `Find.MatchStarRuns` | user/find.c:33-40 | `matchstar` holds iff `matchhere` holds after some run of characters that `c` repeats. |
| `Find.CaretAnchorsAtStart` | user/find.c:10-11 | `match("^"+r, t)` is `matchhere(r, t)`. |
| `Find.EmptyPatternMatches` | user/find.c:21-22 | The empty pattern matches every text. |
| `Find.DollarSemantics` | user/find.c:25-26 | A final `$` matches only the end of the text; a `$` followed by more pattern (not a star) is a literal. |
| `Find.SingleCharacterAtoms` | user/find.c:27-29 | `.` and a literal consume exactly one matching character and never match at the end of the text. |
| `Find.StarSemantics` | user/find.c:23-24 | `x*` matches any number of `x`, and `.*` any characters. |
| `CopyIn.Add64` | kernel/vmcopyin.c:34 | `srcva+len` in 64 bits: the sum, or the sum minus 2^64. It is below `srcva` iff the sum wrapped. |
| `CopyIn.CopyInNew` | kernel/vmcopyin.c:29-39 | The copy succeeds iff `srcva+len < sz`, so the wrap and `srcva >= sz` are refused. On success `dst[0..len)` holds the user bytes `[srcva, srcva+len)`, the rest of `dst` is kept, and `ncopyin` grows by one. On failure nothing changes. |
| `CopyIn.CopyInNewFixed` | kernel/vmcopyin.c:34 | With the intended test, the copy succeeds iff `srcva < sz` and `srcva+len <= sz`, with the same effects. |
| `CopyIn.CopyInEndingAtSize` | kernel/vmcopyin.c:34 | The two tests differ exactly on copies ending at `sz`: the code refuses them and the intended test accepts them. |
| `CopyIn.LastWordRefused` | kernel/vmcopyin.c:34 | The last 4 bytes of a 4096-byte process cannot be copied in as written, but can with the intended test. |
| `CopyIn.CopyInStrNew` | kernel/vmcopyin.c:45-59 | `ncopyinstr` grows by one on every call. The copy returns 0 iff a NUL lies within the first `min(max, sz-srcva)` user bytes. Then everything up to and including the first NUL is copied. Otherwise all those bytes are copied (none when `srcva >= sz`) and -1 is returned. The rest of `dst` is kept. |
| `Xargs.Xargs` | user/xargs.c:17-45 | Within the buffer capacities, the vectors handed to `run` are exactly the line-and-field description `Runs`. |
| `Xargs.LoopPending` | user/xargs.c:25-45 | From any point of the loop, what is still handed to `run` is the description of the rest of the current line and the lines after it. |
| `Xargs.PendingSpace` | user/xargs.c:26-29 | A space ends the current argument and saves it. |
| `Xargs.PendingNewline` | user/xargs.c:30-37 | A newline ends the current argument, runs the line once and starts an empty one. |
| `Xargs.PendingOther` | user/xargs.c:25-38 | Any other byte extends the current argument. |
| `Xargs.SplitJoin` | user/xargs.c:25-38 | The lines, and the fields of a line, are contiguous pieces of the input without their delimiter; joined back they give the input. |
| `Xargs.RunsShape` | user/xargs.c:20-45 | There is one run per newline, plus one when the unfinished last line has a space. Every vector starts with `argv[1..]` in order, ends in its only null, and holds argument strings otherwise. |
| `Xargs.RunsFields` | user/xargs.c:25-37 | The arguments after the fixed ones in the vector for line `k` are that line's space-separated fields. |
| `Xargs.EmptyLineRunsWithEmptyArgument` | user/xargs.c:26-37 | An empty line runs once with a single empty argument. |
| `Xargs.LoneWordIsDropped` | user/xargs.c:40-45 | Input without a newline and without a space runs nothing. |

## Left out

- BioProofs.InsertPhaseKeepsInv: holds when this call's victim is the only detached buffer; a second CPU's victim detached at the same time (between bio.c:156 and its own insertion) is not covered, because the model has no state for two CPUs mid-eviction.
- Spin locks and interleavings. Each call is one atomic step. Only the inserting phase of `bget` is studied on states no sequential run reaches, to cover its re-check.
- Sleep-lock blocking and scheduling. `Bio.AcquireSleep` reports that the caller must sleep; the wake-up is not modelled.
- Disk I/O (`virtio_disk_rw`), the buffer data and the `disk` flag. The read of `bread` is a step that sets `valid`.
- Bio.Bread: for a caller that has to sleep, the read after it wakes up is not modelled, so validity is stated only for a caller that did not sleep.
- The `ticks` global, which is a parameter of `Bio.Brelse`. `NBUF` is a parameter of `Bio.Binit`.
- Bio.Lookup: requires the chains to form a partition of the buffers. This is the shape of the pointer structure, which `binit` establishes and every call keeps (`BioProofs.LookupKeepsInv`).
- BioProofs.BpinKeepsSeqInv: assumes the caller holds the buffer, as `bpin`'s callers in the log layer do. bio.c itself does not check this.
- BioProofs.BunpinKeepsSeqInv: assumes the caller holds the buffer, for the same reason.
- Page contents are modelled as whole-page byte sequences, and `memset`/`memmove` as map updates.
- Kalloc.Kfree: the `struct run` link that kalloc.c:77-81 writes into the first 8 bytes of a freed page is kept in the `freelist` sequence instead of in the page's contents, so the model's page is all 1s where the real page starts with the address of the next free page.
- Kalloc.Freerange: frees through `kfree`, so the pages it frees carry the same link in their first 8 bytes, which the model keeps in `freelist`.
- Kalloc.Kinit: likewise, every free page but the last on the list starts with the address of the next one, which the model keeps in `freelist`.
- `KERNBASE`, `end` and `PHYSTOP` are parameters (`Kalloc.Layout`). Addresses are unbounded naturals, so a 64-bit wrap of `PGROUNDUP` is not modelled.
- The `int` counters of `pageref`, and the statistics counters of vmcopyin.c, are unbounded integers; their 32-bit overflow is not modelled.
- The updates marked "XXX lock" in vmcopyin.c race; the races are not modelled.
- Kalloc.Freerange: the order of the free list is stated only when every page in range starts with count 0, as in `kinit`. Otherwise only the counts and contents are stated.
- Kalloc.KcopyNDeref: the contents and counts of the fresh page are stated only when it differs from the original. Under the invariant it always does (`Kalloc.KcopyKeepsInv`).
- `myproc()` and the page table: user memory is a byte image whose length is `p->sz`.
- `statscopyin`: it is output formatting.
- The C `int i` of `copyinstr_new` is modelled as a 64-bit counter.
- `find`'s directory walk, `stat`, `open` and printing.
- `run`'s `fork`/`exec` and `wait`: `Xargs.Xargs` returns the vectors instead.
- `read` returning -1: the input is a string.
- Xargs.Xargs: requires the input and every line's arguments to fit in `buf` (2048 bytes) and `argsbuf` (128 pointers). The code never checks, and an overflow is undefined behaviour.
- `user/primes.c`, `user/pingpong.c`, `user/sleep.c`: process and pipe plumbing.

## Findings

| source | as written | input that shows it | evidently intended | confidence | as-written member | corrected member |
|---|---|---|---|---|---|---|
| kernel/bio.c:135 | the victim test reads `b->trash`, the trash flag of the predecessor `b`, next to `b->next->refcnt` of the candidate | bucket 0 holds a trash buffer last used at tick 5, then the locked live copy of block 0 with refcnt 1 and lastuse 0; the scan chooses the referenced buffer | `b->next->trash \|\| b->next->refcnt == 0`, which never chooses a referenced buffer while trash buffers are idle; the two tests agree on every state that sequential calls reach | low, not executed; the state needs a trash buffer that is not idle, which sequential calls never produce | `BioProofs.AsWrittenEvictsReferenced` | `BioProofs.IntendedSkipsReferenced` |
| kernel/vmcopyin.c:34 | `srcva+len >= p->sz` refuses a copy whose last byte is the last byte of user memory | `sz` 4096, `srcva` 4092, `len` 4: returns -1 though every byte is below `sz` | `srcva+len > p->sz`, the bound `copyinstr_new` applies at line 53 | medium, not executed | `CopyIn.LastWordRefused` | `CopyIn.CopyInNewFixed` |

The scan of `bget` is modelled both ways: `Bio.Victim(c, AsWritten)` and `Bio.Victim(c, Intended)`. `Bio.Lookup`, and with it `Bio.Bget` and `Bio.Bread`, use the test as written. `BioProofs.VictimRulesAgree` proves that the corrected test would choose the same buffer on every state reachable from `binit`, and `BioProofs.VictimIsFree` proves the corrected test never chooses a referenced buffer on any state whose trash buffers are idle. `CopyIn.CopyInNew` keeps the test as written. `CopyIn.CopyInEndingAtSize` relates it to the corrected test.
