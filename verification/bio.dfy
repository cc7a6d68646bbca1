/** The buffer cache of kernel/bio.c: `NBUF` buffers spread over 13 hash
    buckets, looked up by (device, block number), recycled by least-recent
    use across all buckets.

    Buffer `i` is `bcache.buf[i]`.  A bucket's chain is the sequence of
    buffer indices reached from its head through `next`.  That every
    buffer sits in exactly one chain, once (`Partition`), is not a
    consequence of the pointer structure: `binit` establishes it and every
    call keeps it (`BioProofs.LookupKeepsInv`).  The spin locks
    are left out (the model is sequential) and the sleep lock of a buffer
    is its `held` flag.  The `uint` counters are integers below 2^32 whose
    increments and decrements wrap as in C; the `uint` device and block
    numbers, which are only compared and hashed, are 32-bit vectors.
 */
module Bio {
  import opened Outcomes
  import opened Seqs

  const U32: int := 0x1_0000_0000

  /** A C `uint`: 32 bits, unsigned. */
  type uint = x: int | 0 <= x < U32

  /** A C `uint` that is only compared, shifted and or-ed. */
  type word = bv32

  /** `x++` on a `uint`: wraps from 2^32-1 to 0. */
  function Inc(x: uint): (r: uint)
    ensures r == (x + 1) % U32
    ensures Dec(r) == x
  {
    if x == U32 - 1 then 0 else x + 1
  }

  /** `x--` on a `uint`: wraps from 0 to 2^32-1. */
  function Dec(x: uint): (r: uint)
    ensures (r + 1) % U32 == x
  {
    if x == 0 then U32 - 1 else x - 1
  }

  /** NBUFMAP_BUCKET */
  const NBUCKET: nat := 13

  /** BUFMAP_HASH: the device shifted left by 27 bits (in 32 bits), or-ed
      with the block number, modulo the number of buckets. */
  function Key(dev: word, blockno: word): (k: nat)
    ensures k < NBUCKET
  {
    (((dev << 27) | blockno) as int) % NBUCKET
  }

  /** The metadata of one `struct buf`; the data bytes and the `disk`
      flag belong to the disk driver and are not modelled. */
  datatype Buf = Buf(trash: bool, valid: bool, dev: word, blockno: word,
                     refcnt: uint, lastuse: uint, held: bool)
  {
    /** This buffer is the live copy of block `blockno` on device `dev`. */
    predicate Caches(d: word, b: word) {
      !trash && dev == d && blockno == b
    }
  }

  /** `bcache`: the buffers and, per bucket, its chain of buffer indices. */
  datatype Cache = Cache(bufs: seq<Buf>, buckets: seq<seq<nat>>)

  /** There are 13 chains and they only name existing buffers. */
  ghost predicate Shaped(c: Cache) {
    && |c.buckets| == NBUCKET
    && (forall k, j :: 0 <= k < NBUCKET && 0 <= j < |c.buckets[k]| ==> c.buckets[k][j] < |c.bufs|)
  }

  /** Every buffer except the `detached` ones lies in exactly one chain,
      once; the detached ones (a buffer between its unlinking and its
      re-insertion in `bget`) lie in none. */
  ghost predicate Partition(c: Cache, detached: set<nat>) {
    && Shaped(c)
    && (forall k :: 0 <= k < NBUCKET ==> NoDup(c.buckets[k]))
    && (forall k1, k2, i :: 0 <= k1 < NBUCKET && 0 <= k2 < NBUCKET && k1 != k2 && i in c.buckets[k1]
          ==> i !in c.buckets[k2])
    && (forall i :: 0 <= i < |c.bufs| && i !in detached ==> Attached(c, i))
    && (forall i, k :: i in detached && 0 <= k < NBUCKET ==> i !in c.buckets[k])
  }

  /** Buffer `i` lies in some chain. */
  ghost predicate Attached(c: Cache, i: nat) {
    exists k :: 0 <= k < NBUCKET && k < |c.buckets| && i in c.buckets[k]
  }

  /** No block is cached twice. */
  ghost predicate Unique(c: Cache) {
    forall i, j :: 0 <= i < |c.bufs| && 0 <= j < |c.bufs| && i != j && !c.bufs[i].trash && !c.bufs[j].trash
      ==> c.bufs[i].dev != c.bufs[j].dev || c.bufs[i].blockno != c.bufs[j].blockno
  }

  /** Every attached live buffer sits in the bucket its block hashes to. */
  ghost predicate Placed(c: Cache, detached: set<nat>) {
    && Shaped(c)
    && forall i :: 0 <= i < |c.bufs| && i !in detached && !c.bufs[i].trash
         ==> i in c.buckets[Key(c.bufs[i].dev, c.bufs[i].blockno)]
  }

  ghost predicate Inv(c: Cache, detached: set<nat>) {
    Partition(c, detached) && Unique(c) && Placed(c, detached)
  }

  /** The invariant of the cache between calls. */
  ghost predicate CacheInv(c: Cache) {
    Inv(c, {})
  }

  /** Trash buffers are unreferenced and look least recently used, as
      `binit` and the trashing in `bget` leave them. */
  ghost predicate TrashIdle(c: Cache) {
    forall i :: 0 <= i < |c.bufs| && c.bufs[i].trash ==> c.bufs[i].refcnt == 0 && c.bufs[i].lastuse == 0
  }

  /** Only live buffers are locked. */
  ghost predicate HeldLive(c: Cache) {
    forall i :: 0 <= i < |c.bufs| && c.bufs[i].held ==> !c.bufs[i].trash
  }

  /** What holds between calls when the calls do not interleave. */
  ghost predicate SeqInv(c: Cache) {
    CacheInv(c) && TrashIdle(c) && HeldLive(c)
  }

  /** `binit`: `nbuf` buffers, all trash with no references and last use 0;
      buffer `i` is pushed onto the front of bucket `i % 13`. */
  method Binit(nbuf: nat) returns (c: Cache)
    ensures SeqInv(c)
    ensures |c.bufs| == nbuf
    ensures forall i :: 0 <= i < nbuf ==>
      c.bufs[i].trash && !c.bufs[i].valid && c.bufs[i].refcnt == 0 && c.bufs[i].lastuse == 0 && !c.bufs[i].held
    ensures forall i, k :: 0 <= i < nbuf && 0 <= k < NBUCKET ==> (i in c.buckets[k] <==> k == i % NBUCKET)
    ensures forall k, a, b :: 0 <= k < NBUCKET && 0 <= a < b < |c.buckets[k]| ==> c.buckets[k][a] > c.buckets[k][b]
  {
    var buckets: seq<seq<nat>> := seq(NBUCKET, _ => []);
    var bufs: seq<Buf> := [];
    var i := 0;
    assert forall k :: 0 <= k < NBUCKET ==> buckets[k] == [];
    while i < nbuf
      invariant i <= nbuf && |bufs| == i && |buckets| == NBUCKET
      invariant forall j :: 0 <= j < i ==> bufs[j] == Buf(true, false, 0, 0, 0, 0, false)
      invariant forall k, x: nat :: 0 <= k < NBUCKET ==> (x in buckets[k] <==> x < i && x % NBUCKET == k)
      invariant forall k, a, b :: 0 <= k < NBUCKET && 0 <= a < b < |buckets[k]| ==> buckets[k][a] > buckets[k][b]
    {
      var k := i % NBUCKET;
      assert forall b :: 0 <= b < |buckets[k]| ==> buckets[k][b] in buckets[k];
      buckets := buckets[k := [i] + buckets[k]];
      bufs := bufs + [Buf(true, false, 0, 0, 0, 0, false)];
      i := i + 1;
    }
    c := Cache(bufs, buckets);
    forall k | 0 <= k < NBUCKET
      ensures NoDup(c.buckets[k])
    {
      forall a, b | 0 <= a < b < |c.buckets[k]|
        ensures c.buckets[k][a] != c.buckets[k][b]
      {
        assert c.buckets[k][a] > c.buckets[k][b];
      }
    }
    forall x | 0 <= x < |c.bufs|
      ensures Attached(c, x)
    {
      assert x in c.buckets[x % NBUCKET];
    }
    assert Shaped(c) by {
      forall k, j | 0 <= k < NBUCKET && 0 <= j < |c.buckets[k]|
        ensures c.buckets[k][j] < |c.bufs|
      {
        assert c.buckets[k][j] in c.buckets[k];
      }
    }
    assert Partition(c, {});
    assert Unique(c) && Placed(c, {});
  }

  // ---------------------------------------------------------------------
  // Looking a block up in one bucket

  /** `bbufmap_searchbucket`: the first buffer of chain `key` caching the
      block, from position `j` on. */
  function SearchFrom(c: Cache, key: nat, dev: word, blockno: word, j: nat): (r: Option<nat>)
    requires Shaped(c) && key < NBUCKET && j <= |c.buckets[key]|
    ensures r.None? <==> forall m :: j <= m < |c.buckets[key]| ==> !c.bufs[c.buckets[key][m]].Caches(dev, blockno)
    ensures r.Some? ==> exists m :: j <= m < |c.buckets[key]| && c.buckets[key][m] == r.value
                                    && c.bufs[r.value].Caches(dev, blockno)
                                    && forall m' :: j <= m' < m ==> !c.bufs[c.buckets[key][m']].Caches(dev, blockno)
    decreases |c.buckets[key]| - j
  {
    if j == |c.buckets[key]| then None
    else if c.bufs[c.buckets[key][j]].Caches(dev, blockno) then Some(c.buckets[key][j])
    else SearchFrom(c, key, dev, blockno, j + 1)
  }

  function Search(c: Cache, key: nat, dev: word, blockno: word): (r: Option<nat>)
    requires Shaped(c) && key < NBUCKET
    ensures r.None? <==> forall m :: 0 <= m < |c.buckets[key]| ==> !c.bufs[c.buckets[key][m]].Caches(dev, blockno)
    ensures r.Some? ==> r.value in c.buckets[key] && r.value < |c.bufs| && c.bufs[r.value].Caches(dev, blockno)
    ensures r.Some? ==> exists m :: 0 <= m < |c.buckets[key]| && c.buckets[key][m] == r.value
                                    && forall m' :: 0 <= m' < m ==> !c.bufs[c.buckets[key][m']].Caches(dev, blockno)
  {
    SearchFrom(c, key, dev, blockno, 0)
  }

  // ---------------------------------------------------------------------
  // Choosing a buffer to recycle

  /** Position `j` of chain `k`. */
  datatype Pos = Pos(k: nat, j: nat)

  ghost predicate ValidPos(c: Cache, p: Pos) {
    Shaped(c) && p.k < NBUCKET && p.j < |c.buckets[p.k]|
  }

  /** The index of the buffer at a position. */
  function IndexAt(c: Cache, p: Pos): (i: nat)
    requires ValidPos(c, p)
    ensures i < |c.bufs| && i in c.buckets[p.k]
  {
    c.buckets[p.k][p.j]
  }

  function At(c: Cache, p: Pos): Buf
    requires ValidPos(c, p)
  {
    c.bufs[IndexAt(c, p)]
  }

  /** The eligibility test of the victim scan.  `AsWritten` is the test
      of bio.c:135, which looks at the `trash` flag of the PREDECESSOR in
      the chain (for the first position, the bucket's head, never trash)
      but at the reference count of the candidate itself; `Intended`
      looks at the candidate for both.  The two choose the same buffer
      whenever trash buffers are idle (`BioProofs.VictimRulesAgree`),
      which every sequence of calls from `Binit` keeps; `Lookup` uses
      `AsWritten`, as `bget` does. */
  datatype Rule = AsWritten | Intended

  predicate Eligible(c: Cache, rule: Rule, p: Pos)
    requires ValidPos(c, p)
  {
    match rule
    case AsWritten => (p.j > 0 && c.bufs[c.buckets[p.k][p.j - 1]].trash) || At(c, p).refcnt == 0
    case Intended => At(c, p).trash || At(c, p).refcnt == 0
  }

  /** `p` comes before `q` in the scan order: bucket by bucket, front to back. */
  predicate Before(p: Pos, q: Pos) {
    p.k < q.k || (p.k == q.k && p.j < q.j)
  }

  /** The scan result after having looked at every position before `(k, j)`:
      none if no position there was eligible, otherwise the first eligible
      position with the least `lastuse`. */
  ghost predicate BestSoFar(c: Cache, rule: Rule, best: Option<Pos>, k: nat, j: nat) {
    match best
    case None => forall q :: ValidPos(c, q) && Before(q, Pos(k, j)) ==> !Eligible(c, rule, q)
    case Some(b) =>
      && ValidPos(c, b) && Before(b, Pos(k, j)) && Eligible(c, rule, b)
      && forall q :: ValidPos(c, q) && Before(q, Pos(k, j)) && Eligible(c, rule, q) ==>
           At(c, b).lastuse <= At(c, q).lastuse && (Before(q, b) ==> At(c, b).lastuse < At(c, q).lastuse)
  }

  /** The inner loop of the scan over chain `k` from position `j`: a
      position replaces the current choice only when STRICTLY older. */
  function ScanChain(c: Cache, rule: Rule, k: nat, j: nat, best: Option<Pos>): (r: Option<Pos>)
    requires Shaped(c) && k < NBUCKET && j <= |c.buckets[k]|
    requires BestSoFar(c, rule, best, k, j)
    ensures BestSoFar(c, rule, r, k + 1, 0)
    decreases |c.buckets[k]| - j
  {
    if j == |c.buckets[k]| then
      ChainDone(c, rule, k, best);
      best
    else
      var p := Pos(k, j);
      var take := Eligible(c, rule, p) && (best.None? || At(c, p).lastuse < At(c, best.value).lastuse);
      ScanStep(c, rule, k, j, best, take);
      ScanChain(c, rule, k, j + 1, if take then Some(p) else best)
  }

  /** One step of the inner loop keeps the scan result right. */
  lemma ScanStep(c: Cache, rule: Rule, k: nat, j: nat, best: Option<Pos>, take: bool)
    requires Shaped(c) && k < NBUCKET && j < |c.buckets[k]|
    requires BestSoFar(c, rule, best, k, j)
    requires take == (Eligible(c, rule, Pos(k, j)) && (best.None? || At(c, Pos(k, j)).lastuse < At(c, best.value).lastuse))
    ensures BestSoFar(c, rule, if take then Some(Pos(k, j)) else best, k, j + 1)
  {
    var p := Pos(k, j);
    var nb := if take then Some(p) else best;
    match nb
    case None =>
      forall q | ValidPos(c, q) && Before(q, Pos(k, j + 1))
        ensures !Eligible(c, rule, q)
      {
        if q != p {
          assert Before(q, Pos(k, j));
        }
      }
    case Some(b) =>
      assert ValidPos(c, b) && Before(b, Pos(k, j + 1)) && Eligible(c, rule, b);
      forall q | ValidPos(c, q) && Before(q, Pos(k, j + 1)) && Eligible(c, rule, q)
        ensures At(c, b).lastuse <= At(c, q).lastuse && (Before(q, b) ==> At(c, b).lastuse < At(c, q).lastuse)
      {
        if q != p {
          assert Before(q, Pos(k, j));
        }
      }
  }

  /** Having passed the end of chain `k` is having reached chain `k + 1`. */
  lemma ChainDone(c: Cache, rule: Rule, k: nat, best: Option<Pos>)
    requires Shaped(c) && k < NBUCKET
    requires BestSoFar(c, rule, best, k, |c.buckets[k]|)
    ensures BestSoFar(c, rule, best, k + 1, 0)
  {
    forall q | ValidPos(c, q) && Before(q, Pos(k + 1, 0))
      ensures Before(q, Pos(k, |c.buckets[k]|))
    {
    }
  }

  /** The outer loop of the scan, bucket `k` onwards. */
  function Scan(c: Cache, rule: Rule, k: nat, best: Option<Pos>): (r: Option<Pos>)
    requires Shaped(c) && k <= NBUCKET
    requires BestSoFar(c, rule, best, k, 0)
    ensures BestSoFar(c, rule, r, NBUCKET, 0)
    decreases NBUCKET - k
  {
    if k == NBUCKET then best else Scan(c, rule, k + 1, ScanChain(c, rule, k, 0, best))
  }

  /** The buffer `bget` recycles on a miss (`before_least->next`). */
  function Victim(c: Cache, rule: Rule): (r: Option<Pos>)
    requires Shaped(c)
    ensures r.None? <==> forall q :: ValidPos(c, q) ==> !Eligible(c, rule, q)
    ensures r.Some? ==> ValidPos(c, r.value) && Eligible(c, rule, r.value)
    ensures r.Some? ==> forall q :: ValidPos(c, q) && Eligible(c, rule, q) ==>
                          At(c, r.value).lastuse <= At(c, q).lastuse
                          && (Before(q, r.value) ==> At(c, r.value).lastuse < At(c, q).lastuse)
  {
    var r := Scan(c, rule, 0, None);
    AllScanned(c, rule, r);
    r
  }

  /** Past the last chain, every position has been looked at. */
  lemma AllScanned(c: Cache, rule: Rule, r: Option<Pos>)
    requires Shaped(c) && BestSoFar(c, rule, r, NBUCKET, 0)
    ensures r.None? ==> forall q :: ValidPos(c, q) ==> !Eligible(c, rule, q)
    ensures r.Some? ==> ValidPos(c, r.value) && Eligible(c, rule, r.value)
    ensures r.Some? ==> forall q :: ValidPos(c, q) && Eligible(c, rule, q) ==>
                          At(c, r.value).lastuse <= At(c, q).lastuse
                          && (Before(q, r.value) ==> At(c, r.value).lastuse < At(c, q).lastuse)
  {
    assert forall q :: ValidPos(c, q) ==> Before(q, Pos(NBUCKET, 0));
  }

  // ---------------------------------------------------------------------
  // Elementary updates

  function SetBuf(c: Cache, i: nat, b: Buf): Cache
    requires i < |c.bufs|
  {
    c.(bufs := c.bufs[i := b])
  }

  /** `b->refcnt++` */
  function Touch(c: Cache, i: nat): Cache
    requires i < |c.bufs|
  {
    SetBuf(c, i, c.bufs[i].(refcnt := Inc(c.bufs[i].refcnt)))
  }

  /** `bbufmap_insertbucket`: push a buffer onto the front of a chain. */
  function InsertBucket(c: Cache, key: nat, i: nat): (r: Cache)
    requires key < |c.buckets|
    ensures r.bufs == c.bufs && |r.buckets| == |c.buckets|
    ensures r.buckets[key] == [i] + c.buckets[key]
    ensures forall k :: 0 <= k < |c.buckets| && k != key ==> r.buckets[k] == c.buckets[k]
  {
    c.(buckets := c.buckets[key := [i] + c.buckets[key]])
  }

  /** `before_least->next = newb->next`: unlink the buffer at `p`. */
  function Unlink(c: Cache, p: Pos): (r: Cache)
    requires ValidPos(c, p)
    ensures r.bufs == c.bufs && |r.buckets| == |c.buckets|
    ensures r.buckets[p.k] == c.buckets[p.k][..p.j] + c.buckets[p.k][p.j + 1..]
    ensures forall k :: 0 <= k < |c.buckets| && k != p.k ==> r.buckets[k] == c.buckets[k]
  {
    c.(buckets := c.buckets[p.k := c.buckets[p.k][..p.j] + c.buckets[p.k][p.j + 1..]])
  }

  // ---------------------------------------------------------------------
  // bget and its callers

  /** The inserting phase of `bget`, after the buffer `newb` has been taken
      from bucket `hb`: look again in bucket `key`; if the block turned up
      meanwhile, take a reference to it and park `newb` as trash in bucket
      `key` (when it was unlinked); otherwise relabel `newb` for the block
      and link it into bucket `key` (when it was unlinked). */
  function InsertPhase(c: Cache, key: nat, dev: word, blockno: word, newb: nat, hb: nat): (r: (Cache, nat))
    requires Shaped(c) && key < NBUCKET && newb < |c.bufs|
    ensures |r.0.bufs| == |c.bufs| && r.1 < |c.bufs|
  {
    match Search(c, key, dev, blockno)
    case Some(b) =>
      var c1 := Touch(c, b);
      if hb != key then
        var c2 := SetBuf(c1, newb, c1.bufs[newb].(trash := true, lastuse := 0));
        (InsertBucket(c2, key, newb), b)
      else (c1, b)
    case None =>
      var c1 := if hb != key then InsertBucket(c, key, newb) else c;
      (SetBuf(c1, newb, c1.bufs[newb].(trash := false, dev := dev, blockno := blockno, refcnt := 1, valid := false)), newb)
  }

  /** Everything `bget` does under the bucket locks: the cached buffer with
      one more reference on a hit; on a miss the victim of the scan,
      unlinked, relabelled and linked into the block's bucket; a panic when
      there is no victim.  Returns the cache and the buffer index. */
  function Lookup(c: Cache, dev: word, blockno: word): (r: Outcome<(Cache, nat)>)
    requires Partition(c, {})
    ensures r.Panic? <==> Search(c, Key(dev, blockno), dev, blockno).None? && Victim(c, AsWritten).None?
    ensures r.Panic? ==> r.msg == "bget: no buffers"
    ensures r.Ok? ==> var (c', i) := r.value;
      && i < |c'.bufs| && |c'.bufs| == |c.bufs| && c'.bufs[i].Caches(dev, blockno)
      && Partition(c', {})
      && forall j :: 0 <= j < |c.bufs| && j != i && !c.bufs[j].trash ==> c'.bufs[j] == c.bufs[j]
    ensures r.Ok? && Search(c, Key(dev, blockno), dev, blockno).Some? ==>
      var i := Search(c, Key(dev, blockno), dev, blockno).value;
      r.value == (c.(bufs := c.bufs[i := c.bufs[i].(refcnt := Inc(c.bufs[i].refcnt))]), i)
    ensures r.Ok? && Search(c, Key(dev, blockno), dev, blockno).None? ==>
      r.value.1 == IndexAt(c, Victim(c, AsWritten).value)
  {
    var key := Key(dev, blockno);
    match Search(c, key, dev, blockno)
    case Some(b) =>
      SameChains(c, Touch(c, b), {});
      Ok((Touch(c, b), b))
    case None =>
      match Victim(c, AsWritten)
      case None => Panic("bget: no buffers")
      case Some(v) => Ok(Recycle(c, dev, blockno, v))
  }

  /** The miss path of `bget` once the scan chose the buffer at `v`: unlink
      it when it is not in the block's bucket already, then the inserting
      phase, whose re-check finds nothing since bucket `key` is unchanged. */
  function Recycle(c: Cache, dev: word, blockno: word, v: Pos): (r: (Cache, nat))
    requires Partition(c, {}) && ValidPos(c, v)
    requires Search(c, Key(dev, blockno), dev, blockno).None?
    ensures var (c', i) := r;
      && i == IndexAt(c, v) && |c'.bufs| == |c.bufs| && Partition(c', {})
      && c'.bufs[i] == c.bufs[i].(trash := false, dev := dev, blockno := blockno, refcnt := 1, valid := false)
      && i in c'.buckets[Key(dev, blockno)]
      && (forall x, k :: 0 <= k < NBUCKET && x != i && x in c.buckets[k] ==> x in c'.buckets[k])
      && forall j :: 0 <= j < |c.bufs| && j != i ==> c'.bufs[j] == c.bufs[j]
  {
    var key := Key(dev, blockno);
    var newb := IndexAt(c, v);
    var c1 := if v.k != key then Unlink(c, v) else c;
    MissKeepsPartition(c, v, key);
    assert Search(c1, key, dev, blockno).None?;
    var c2 := if v.k != key then InsertBucket(c1, key, newb) else c1;
    var c3 := SetBuf(c2, newb, c.bufs[newb].(trash := false, dev := dev, blockno := blockno, refcnt := 1, valid := false));
    SameChains(c2, c3, {});
    assert InsertPhase(c1, key, dev, blockno, newb, v.k) == (c3, newb);
    InsertPhase(c1, key, dev, blockno, newb, v.k)
  }

  /** Changing the buffers but neither their number nor the chains keeps
      the chains a partition. */
  lemma SameChains(c: Cache, c': Cache, detached: set<nat>)
    requires Partition(c, detached)
    requires c'.buckets == c.buckets && |c'.bufs| == |c.bufs|
    ensures Partition(c', detached)
  {
    forall i | 0 <= i < |c'.bufs| && i !in detached
      ensures Attached(c', i)
    {
      assert Attached(c, i);
    }
  }

  /** `s` without its element at position `j`. */
  lemma {:induction false} RemoveAt(s: seq<nat>, j: nat)
    requires NoDup(s) && j < |s|
    ensures NoDup(s[..j] + s[j + 1..])
    ensures forall x :: x in s[..j] + s[j + 1..] <==> x in s && x != s[j]
  {
    var r := s[..j] + s[j + 1..];
    assert forall a :: 0 <= a < |r| ==> r[a] == (if a < j then s[a] else s[a + 1]);
    forall x
      ensures x in r <==> x in s && x != s[j]
    {
      if x in s && x != s[j] {
        var m :| 0 <= m < |s| && s[m] == x;
        assert r[if m < j then m else m - 1] == x;
      }
    }
  }

  /** Moving a buffer from its chain to the front of another keeps every
      buffer in exactly one chain. */
  lemma MissKeepsPartition(c: Cache, v: Pos, key: nat)
    requires Partition(c, {}) && ValidPos(c, v) && key < NBUCKET
    ensures v.k != key ==> Partition(Unlink(c, v), {IndexAt(c, v)})
    ensures v.k != key ==> Unlink(c, v).buckets[key] == c.buckets[key]
    ensures forall x, k :: 0 <= k < NBUCKET && x != IndexAt(c, v) && x in c.buckets[k] ==> x in Unlink(c, v).buckets[k]
    ensures var c2 := if v.k != key then InsertBucket(Unlink(c, v), key, IndexAt(c, v)) else c;
      && Partition(c2, {}) && IndexAt(c, v) in c2.buckets[key]
      && forall x, k :: 0 <= k < NBUCKET && x != IndexAt(c, v) && x in c.buckets[k] ==> x in c2.buckets[k]
  {
    RemoveAt(c.buckets[v.k], v.j);
    if v.k != key {
      var i := IndexAt(c, v);
      var c1 := Unlink(c, v);
      forall x | 0 <= x < |c1.bufs| && x !in {i}
        ensures Attached(c1, x)
      {
        assert Attached(c, x);
        var k :| 0 <= k < NBUCKET && x in c.buckets[k];
        assert x in c1.buckets[k];
      }
      assert Partition(c1, {i});
      DetachedInserted(c1, key, i);
    }
  }

  /** Linking a detached buffer into a chain attaches it. */
  lemma DetachedInserted(c: Cache, key: nat, i: nat)
    requires Partition(c, {i}) && key < NBUCKET && i < |c.bufs|
    ensures Partition(InsertBucket(c, key, i), {}) && i in InsertBucket(c, key, i).buckets[key]
  {
    var c2 := InsertBucket(c, key, i);
    assert forall x :: x in c2.buckets[key] <==> x == i || x in c.buckets[key];
    assert NoDup(c2.buckets[key]) by {
      forall a, b | 0 <= a < b < |c2.buckets[key]|
        ensures c2.buckets[key][a] != c2.buckets[key][b]
      {
        assert c2.buckets[key][b] == c.buckets[key][b - 1];
        if a > 0 {
          assert c2.buckets[key][a] == c.buckets[key][a - 1];
        }
      }
    }
    forall x | 0 <= x < |c2.bufs|
      ensures Attached(c2, x)
    {
      if x == i {
        assert x in c2.buckets[key];
      } else {
        assert Attached(c, x);
        var k :| 0 <= k < NBUCKET && x in c.buckets[k];
        assert x in c2.buckets[k];
      }
    }
  }

  /** A sleeping-lock acquisition: the buffer, and whether the caller must
      sleep because another holder has it. */
  datatype Got = Got(cache: Cache, buf: nat, sleeping: bool)

  /** `acquiresleep`: take the buffer's lock if free; otherwise the caller
      sleeps and the cache is left as it is. */
  function AcquireSleep(c: Cache, i: nat): (g: Got)
    requires i < |c.bufs|
    ensures g.buf == i && |g.cache.bufs| == |c.bufs| && g.cache.buckets == c.buckets
    ensures g.sleeping <==> c.bufs[i].held
    ensures g.cache.bufs[i].held
    ensures g.cache.bufs[i] == c.bufs[i].(held := true)
    ensures forall j :: 0 <= j < |c.bufs| && j != i ==> g.cache.bufs[j] == c.bufs[j]
  {
    if c.bufs[i].held then Got(c, i, true)
    else Got(SetBuf(c, i, c.bufs[i].(held := true)), i, false)
  }

  /** `bget`: the lookup, then the buffer's sleep lock. */
  function Bget(c: Cache, dev: word, blockno: word): (r: Outcome<Got>)
    requires Partition(c, {})
    ensures r.Panic? <==> Lookup(c, dev, blockno).Panic?
    ensures r.Ok? ==> r.value.buf < |r.value.cache.bufs| && r.value.cache.bufs[r.value.buf].Caches(dev, blockno)
                      && r.value.cache.bufs[r.value.buf].held && Partition(r.value.cache, {})
  {
    match Lookup(c, dev, blockno)
    case Panic(m) => Panic(m)
    case Ok((c1, i)) =>
      SameChains(c1, AcquireSleep(c1, i).cache, {});
      Ok(AcquireSleep(c1, i))
  }

  /** The disk read of `bread`: a buffer without valid data becomes valid;
      nothing else changes.  A caller that has to sleep reads later, after
      waking, which is not modelled. */
  function ReadIn(g: Got): (r: Got)
    requires g.buf < |g.cache.bufs|
    ensures r.buf == g.buf && r.sleeping == g.sleeping
    ensures r.cache.buckets == g.cache.buckets && |r.cache.bufs| == |g.cache.bufs|
    ensures !g.sleeping ==> r.cache.bufs[r.buf].valid
    ensures r.cache.bufs[r.buf].(valid := g.cache.bufs[g.buf].valid) == g.cache.bufs[g.buf]
    ensures forall j :: 0 <= j < |g.cache.bufs| && j != g.buf ==> r.cache.bufs[j] == g.cache.bufs[j]
    ensures g.cache.bufs[g.buf].valid ==> r == g
  {
    if !g.sleeping && !g.cache.bufs[g.buf].valid then
      g.(cache := SetBuf(g.cache, g.buf, g.cache.bufs[g.buf].(valid := true)))
    else g
  }

  /** `bread`: `bget`, then read the block from disk when the buffer does
      not hold valid data yet; the transfer itself is not modelled. */
  function Bread(c: Cache, dev: word, blockno: word): (r: Outcome<Got>)
    requires Partition(c, {})
    ensures r.Panic? <==> Bget(c, dev, blockno).Panic?
    ensures r.Ok? ==> r.value.buf < |r.value.cache.bufs| && r.value.cache.bufs[r.value.buf].Caches(dev, blockno)
    ensures r.Ok? && !r.value.sleeping ==> r.value.cache.bufs[r.value.buf].valid && r.value.cache.bufs[r.value.buf].held
  {
    match Bget(c, dev, blockno)
    case Panic(m) => Panic(m)
    case Ok(g) => Ok(ReadIn(g))
  }

  /** `bwrite`: panics unless the caller holds the buffer's lock; the disk
      write changes no metadata. */
  function Bwrite(c: Cache, i: nat): (r: Outcome<Cache>)
    requires i < |c.bufs|
    ensures r.Panic? <==> !c.bufs[i].held
    ensures r.Panic? ==> r.msg == "bwrite"
    ensures r.Ok? ==> r.value == c
  {
    if !c.bufs[i].held then Panic("bwrite") else Ok(c)
  }

  /** `brelse`: panics unless the lock is held; releases it and drops one
      reference (wrapping at 0); a buffer whose count reaches 0 records the
      current `ticks` as its last use. */
  function Brelse(c: Cache, i: nat, ticks: uint): (r: Outcome<Cache>)
    requires i < |c.bufs|
    ensures r.Panic? <==> !c.bufs[i].held
    ensures r.Panic? ==> r.msg == "brelse"
    ensures r.Ok? ==> r.value.buckets == c.buckets && |r.value.bufs| == |c.bufs|
    ensures r.Ok? ==> var b := r.value.bufs[i];
      && !b.held && (b.refcnt + 1) % U32 == c.bufs[i].refcnt
      && b.lastuse == (if b.refcnt == 0 then ticks else c.bufs[i].lastuse)
      && b.(held := true, refcnt := c.bufs[i].refcnt, lastuse := c.bufs[i].lastuse) == c.bufs[i]
      && forall j :: 0 <= j < |c.bufs| && j != i ==> r.value.bufs[j] == c.bufs[j]
  {
    if !c.bufs[i].held then Panic("brelse")
    else
      var n := Dec(c.bufs[i].refcnt);
      Ok(SetBuf(c, i, c.bufs[i].(held := false, refcnt := n, lastuse := if n == 0 then ticks else c.bufs[i].lastuse)))
  }

  /** `bpin`: one more reference, wrapping at 2^32. */
  function Bpin(c: Cache, i: nat): (r: Cache)
    requires i < |c.bufs|
    ensures r.buckets == c.buckets && |r.bufs| == |c.bufs|
    ensures r.bufs[i].refcnt == (c.bufs[i].refcnt + 1) % U32
    ensures r.bufs[i].(refcnt := c.bufs[i].refcnt) == c.bufs[i]
    ensures forall j :: 0 <= j < |c.bufs| && j != i ==> r.bufs[j] == c.bufs[j]
  {
    Touch(c, i)
  }

  /** `bunpin`: one reference fewer, wrapping at 0. */
  function Bunpin(c: Cache, i: nat): (r: Cache)
    requires i < |c.bufs|
    ensures r.buckets == c.buckets && |r.bufs| == |c.bufs|
    ensures (r.bufs[i].refcnt + 1) % U32 == c.bufs[i].refcnt
    ensures r.bufs[i].(refcnt := c.bufs[i].refcnt) == c.bufs[i]
    ensures forall j :: 0 <= j < |c.bufs| && j != i ==> r.bufs[j] == c.bufs[j]
  {
    SetBuf(c, i, c.bufs[i].(refcnt := Dec(c.bufs[i].refcnt)))
  }
}
