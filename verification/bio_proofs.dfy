/** Properties of the buffer cache model: lookups find exactly the cached
    blocks, every operation keeps the cache's invariants, recycling never
    takes a referenced buffer, and the victim test of bio.c:135 agrees
    with the candidate-based test on every state the calls can reach. */
module BioProofs {
  import opened Outcomes
  import opened Bio

  // ---------------------------------------------------------------------
  // The hash

  /** The device is shifted into the top five bits, so only its low five
      bits reach the bucket number. */
  lemma KeyUsesLowDevBits(dev: word, blockno: word)
    ensures Key(dev, blockno) == Key(dev & 31, blockno)
  {
    assert dev << 27 == (dev & 31) << 27;
  }

  /** On device 0 the bucket is the block number modulo 13. */
  lemma KeyOfDeviceZero(blockno: word)
    ensures Key(0, blockno) == (blockno as int) % NBUCKET
  {
    assert ((0 as word) << 27) | blockno == blockno;
  }

  // ---------------------------------------------------------------------
  // Lookup

  /** Between calls, the search of the block's bucket finds a block iff
      some buffer caches it, and then finds that buffer. */
  lemma SearchFindsCached(c: Cache, dev: word, blockno: word)
    requires CacheInv(c)
    ensures Search(c, Key(dev, blockno), dev, blockno).Some?
            <==> exists i :: 0 <= i < |c.bufs| && c.bufs[i].Caches(dev, blockno)
    ensures forall i :: 0 <= i < |c.bufs| && c.bufs[i].Caches(dev, blockno)
                        ==> Search(c, Key(dev, blockno), dev, blockno) == Some(i)
  {
    var key := Key(dev, blockno);
    forall i | 0 <= i < |c.bufs| && c.bufs[i].Caches(dev, blockno)
      ensures Search(c, key, dev, blockno) == Some(i)
    {
      assert i in c.buckets[key];
      var m :| 0 <= m < |c.buckets[key]| && c.buckets[key][m] == i;
      assert c.bufs[c.buckets[key][m]].Caches(dev, blockno);
    }
  }

  /** Changing no buffer's label, nor the chains, keeps the invariant. */
  lemma SameLabels(c: Cache, c': Cache)
    requires CacheInv(c)
    requires c'.buckets == c.buckets && |c'.bufs| == |c.bufs|
    requires forall i :: 0 <= i < |c.bufs| ==>
      c'.bufs[i].trash == c.bufs[i].trash && c'.bufs[i].dev == c.bufs[i].dev && c'.bufs[i].blockno == c.bufs[i].blockno
    ensures CacheInv(c')
  {
    SameChains(c, c', {});
  }

  /** Uniqueness survives when every live buffer was live before, with
      the same label. */
  lemma LiveUnchanged(c: Cache, c': Cache)
    requires Unique(c) && |c'.bufs| == |c.bufs|
    requires forall j :: 0 <= j < |c.bufs| && !c'.bufs[j].trash ==>
      !c.bufs[j].trash && c'.bufs[j].dev == c.bufs[j].dev && c'.bufs[j].blockno == c.bufs[j].blockno
    ensures Unique(c')
  {
  }

  /** Uniqueness survives relabelling buffer `i` for a block no other
      buffer caches. */
  lemma LiveRelabelled(c: Cache, c': Cache, i: nat, dev: word, blockno: word)
    requires Unique(c) && |c'.bufs| == |c.bufs| && i < |c.bufs|
    requires c'.bufs[i].Caches(dev, blockno)
    requires forall j :: 0 <= j < |c.bufs| && j != i && !c'.bufs[j].trash ==>
      !c.bufs[j].trash && c'.bufs[j].dev == c.bufs[j].dev && c'.bufs[j].blockno == c.bufs[j].blockno
    requires forall j :: 0 <= j < |c.bufs| && j != i ==> !c.bufs[j].Caches(dev, blockno)
    ensures Unique(c')
  {
    forall x, y | 0 <= x < |c'.bufs| && 0 <= y < |c'.bufs| && x != y && !c'.bufs[x].trash && !c'.bufs[y].trash
      ensures c'.bufs[x].dev != c'.bufs[y].dev || c'.bufs[x].blockno != c'.bufs[y].blockno
    {
      if x == i {
        assert !c.bufs[y].Caches(dev, blockno);
      } else if y == i {
        assert !c.bufs[x].Caches(dev, blockno);
      }
    }
  }

  /** Every lookup that does not panic keeps the invariant. */
  lemma LookupKeepsInv(c: Cache, dev: word, blockno: word)
    requires CacheInv(c)
    ensures Lookup(c, dev, blockno).Ok? ==> CacheInv(Lookup(c, dev, blockno).value.0)
  {
    var key := Key(dev, blockno);
    match Search(c, key, dev, blockno)
    case Some(b) =>
      SameLabels(c, Touch(c, b));
    case None =>
      match Victim(c, AsWritten)
      case None =>
      case Some(v) =>
        RecycleKeepsInv(c, dev, blockno, v);
  }

  /** Recycling a buffer for a block no buffer caches keeps the invariant. */
  lemma RecycleKeepsInv(c: Cache, dev: word, blockno: word, v: Pos)
    requires CacheInv(c) && ValidPos(c, v)
    requires Search(c, Key(dev, blockno), dev, blockno).None?
    ensures CacheInv(Recycle(c, dev, blockno, v).0)
  {
    var (c', i) := Recycle(c, dev, blockno, v);
    SearchFindsCached(c, dev, blockno);
    LiveRelabelled(c, c', i, dev, blockno);
    assert Placed(c', {});
  }

  /** On a miss the victim is unlinked from its chain and pushed on the
      front of the block's bucket; when it already sits in that bucket
      the chains are left as they are. */
  lemma RecycleMovesToFront(c: Cache, dev: word, blockno: word, v: Pos)
    requires Partition(c, {}) && ValidPos(c, v)
    requires Search(c, Key(dev, blockno), dev, blockno).None?
    ensures var (c', i) := Recycle(c, dev, blockno, v);
      var key := Key(dev, blockno);
      && (v.k == key ==> c'.buckets == c.buckets)
      && (v.k != key ==>
            && c'.buckets[key] == [i] + c.buckets[key]
            && c'.buckets[v.k] == c.buckets[v.k][..v.j] + c.buckets[v.k][v.j + 1..]
            && forall k :: 0 <= k < NBUCKET && k != key && k != v.k ==> c'.buckets[k] == c.buckets[k])
  {
    var key := Key(dev, blockno);
    var newb := IndexAt(c, v);
    var c1 := if v.k != key then Unlink(c, v) else c;
    var c2 := if v.k != key then InsertBucket(c1, key, newb) else c1;
    var c3 := SetBuf(c2, newb, c.bufs[newb].(trash := false, dev := dev, blockno := blockno, refcnt := 1, valid := false));
    assert Recycle(c, dev, blockno, v) == (c3, newb);
  }

  /** The inserting phase of `bget` run on any state that satisfies the
      invariant with `newb` as the only detached buffer (or `newb` still in
      bucket `key`), which need not be reachable by sequential calls: the
      invariant is restored and the buffer handed out caches the requested
      block.  This covers the re-check branch, where another
      CPU inserted the block meanwhile and `newb` is parked as trash. */
  lemma InsertPhaseKeepsInv(c: Cache, key: nat, dev: word, blockno: word, newb: nat, hb: nat)
    requires key == Key(dev, blockno) && newb < |c.bufs| && hb < NBUCKET
    requires Inv(c, if hb != key then {newb} else {})
    requires hb == key ==> newb in c.buckets[key]
    ensures CacheInv(InsertPhase(c, key, dev, blockno, newb, hb).0)
    ensures var (c', i) := InsertPhase(c, key, dev, blockno, newb, hb);
      c'.bufs[i].Caches(dev, blockno)
  {
    if Search(c, key, dev, blockno).Some? {
      RecheckHitKeepsInv(c, key, dev, blockno, newb, hb);
    } else {
      RecheckMissKeepsInv(c, key, dev, blockno, newb, hb);
    }
  }

  /** The re-check found the block: one more reference to it, and `newb`,
      if it was unlinked, goes into bucket `key` as trash. */
  lemma RecheckHitKeepsInv(c: Cache, key: nat, dev: word, blockno: word, newb: nat, hb: nat)
    requires key == Key(dev, blockno) && newb < |c.bufs| && hb < NBUCKET
    requires Inv(c, if hb != key then {newb} else {})
    requires Search(c, key, dev, blockno).Some?
    ensures CacheInv(InsertPhase(c, key, dev, blockno, newb, hb).0)
    ensures var (c', i) := InsertPhase(c, key, dev, blockno, newb, hb);
      c'.bufs[i].Caches(dev, blockno)
  {
    var b := Search(c, key, dev, blockno).value;
    var c1 := Touch(c, b);
    if hb != key {
      assert b != newb;
      var c2 := SetBuf(c1, newb, c1.bufs[newb].(trash := true, lastuse := 0));
      var c3 := InsertBucket(c2, key, newb);
      assert InsertPhase(c, key, dev, blockno, newb, hb) == (c3, b);
      ParkKeepsInv(c, key, b, newb);
    } else {
      assert InsertPhase(c, key, dev, blockno, newb, hb) == (c1, b);
      SameLabels(c, c1);
    }
  }

  /** What the re-check branch does: the buffer found gets one more
      reference and is returned; a victim taken from another bucket is
      pushed on the front of bucket `key` as trash with last use 0, while
      one taken from bucket `key` itself is left untouched.  Nothing else
      changes. */
  lemma RecheckHitResult(c: Cache, key: nat, dev: word, blockno: word, newb: nat, hb: nat)
    requires Shaped(c) && key < NBUCKET && newb < |c.bufs|
    requires Search(c, key, dev, blockno).Some?
    ensures var (c', i) := InsertPhase(c, key, dev, blockno, newb, hb);
      var b := Search(c, key, dev, blockno).value;
      && i == b && c'.bufs[b].refcnt == Inc(c.bufs[b].refcnt)
      && |c'.bufs| == |c.bufs| && |c'.buckets| == |c.buckets|
      && (hb != key ==>
            && c'.buckets[key] == [newb] + c.buckets[key]
            && (forall k :: 0 <= k < NBUCKET && k != key ==> c'.buckets[k] == c.buckets[k])
            && (newb != b ==> c'.bufs[newb] == c.bufs[newb].(trash := true, lastuse := 0)
                              && c'.bufs[b] == c.bufs[b].(refcnt := Inc(c.bufs[b].refcnt)))
            && (newb == b ==> c'.bufs[b] == c.bufs[b].(refcnt := Inc(c.bufs[b].refcnt), trash := true, lastuse := 0))
            && forall j :: 0 <= j < |c.bufs| && j != newb && j != b ==> c'.bufs[j] == c.bufs[j])
      && (hb == key ==> c' == Touch(c, b))
  {
  }

  /** One more reference to `b`, and the detached `newb` linked into
      bucket `key` as an idle trash buffer. */
  lemma ParkKeepsInv(c: Cache, key: nat, b: nat, newb: nat)
    requires Inv(c, {newb}) && key < NBUCKET && b < |c.bufs| && newb < |c.bufs| && b != newb
    ensures var c1 := Touch(c, b);
      CacheInv(InsertBucket(SetBuf(c1, newb, c1.bufs[newb].(trash := true, lastuse := 0)), key, newb))
  {
    var c1 := Touch(c, b);
    var c2 := SetBuf(c1, newb, c1.bufs[newb].(trash := true, lastuse := 0));
    SameChains(c, c2, {newb});
    DetachedInserted(c2, key, newb);
    var c3 := InsertBucket(c2, key, newb);
    LiveUnchanged(c, c3);
    assert Placed(c3, {});
  }

  /** When the search of the block's bucket fails, no attached buffer
      caches the block. */
  lemma NoOtherCopy(c: Cache, key: nat, dev: word, blockno: word, newb: nat, detached: set<nat>)
    requires Placed(c, detached) && detached <= {newb}
    requires key == Key(dev, blockno) && Search(c, key, dev, blockno).None?
    ensures forall j :: 0 <= j < |c.bufs| && j != newb ==> !c.bufs[j].Caches(dev, blockno)
  {
    forall j | 0 <= j < |c.bufs| && j != newb && c.bufs[j].Caches(dev, blockno)
      ensures false
    {
    }
  }

  /** The re-check found nothing: `newb` is relabelled for the block and
      sits in bucket `key`. */
  lemma RecheckMissKeepsInv(c: Cache, key: nat, dev: word, blockno: word, newb: nat, hb: nat)
    requires key == Key(dev, blockno) && newb < |c.bufs| && hb < NBUCKET
    requires Inv(c, if hb != key then {newb} else {})
    requires hb == key ==> newb in c.buckets[key]
    requires Search(c, key, dev, blockno).None?
    ensures CacheInv(InsertPhase(c, key, dev, blockno, newb, hb).0)
    ensures var (c', i) := InsertPhase(c, key, dev, blockno, newb, hb);
      c'.bufs[i].Caches(dev, blockno)
  {
    var c1 := if hb != key then InsertBucket(c, key, newb) else c;
    if hb != key {
      DetachedInserted(c, key, newb);
    }
    assert Partition(c1, {}) && newb in c1.buckets[key];
    var c2 := SetBuf(c1, newb, c1.bufs[newb].(trash := false, dev := dev, blockno := blockno, refcnt := 1, valid := false));
    SameChains(c1, c2, {});
    assert InsertPhase(c, key, dev, blockno, newb, hb) == (c2, newb);
    NoOtherCopy(c, key, dev, blockno, newb, if hb != key then {newb} else {});
    LiveRelabelled(c, c2, newb, dev, blockno);
    assert Placed(c2, {});
  }

  // ---------------------------------------------------------------------
  // Choosing the victim

  /** Two complete scans under the same rule choose the same position. */
  lemma BestIsUnique(c: Cache, rule: Rule, r1: Option<Pos>, r2: Option<Pos>)
    requires BestSoFar(c, rule, r1, NBUCKET, 0) && BestSoFar(c, rule, r2, NBUCKET, 0)
    ensures r1 == r2
  {
  }

  /** While trash buffers are idle, the test as written never lets a
      referenced buffer through: a candidate admitted only because its
      predecessor is trash comes after that predecessor, which is itself
      eligible with last use 0, so the strict comparison keeps the
      predecessor. */
  lemma {:induction false} AsWrittenVictimIsFree(c: Cache)
    requires Shaped(c) && TrashIdle(c)
    ensures Victim(c, AsWritten).Some? ==> At(c, Victim(c, AsWritten).value).refcnt == 0
  {
    var r := Victim(c, AsWritten);
    if r.Some? {
      FirstOldestIsFree(c, r.value);
    }
  }

  /** An eligible position used strictly more recently than every eligible
      position before it holds an unreferenced buffer. */
  lemma FirstOldestIsFree(c: Cache, v: Pos)
    requires Shaped(c) && TrashIdle(c) && ValidPos(c, v) && Eligible(c, AsWritten, v)
    requires forall q :: ValidPos(c, q) && Eligible(c, AsWritten, q) && Before(q, v) ==> At(c, v).lastuse < At(c, q).lastuse
    ensures At(c, v).refcnt == 0
  {
    if At(c, v).refcnt != 0 {
      var p := Pos(v.k, v.j - 1);
      assert ValidPos(c, p) && Eligible(c, AsWritten, p) && Before(p, v);
    }
  }

  /** The scan with the test as written and the scan with the intended test
      choose the same buffer whenever trash buffers are idle. */
  lemma VictimRulesAgree(c: Cache)
    requires Shaped(c) && TrashIdle(c)
    ensures Victim(c, AsWritten) == Victim(c, Intended)
  {
    var a := Victim(c, AsWritten);
    AsWrittenVictimIsFree(c);
    forall q | ValidPos(c, q) && Eligible(c, Intended, q)
      ensures Eligible(c, AsWritten, q)
    {
    }
    assert BestSoFar(c, Intended, a, NBUCKET, 0) by {
      if a.Some? {
        assert Eligible(c, Intended, a.value);
      } else {
        forall q | ValidPos(c, q) && Before(q, Pos(NBUCKET, 0))
          ensures !Eligible(c, Intended, q)
        {
          assert !Eligible(c, AsWritten, q);
        }
      }
    }
    assert BestSoFar(c, Intended, Victim(c, Intended), NBUCKET, 0) by {
      forall q | ValidPos(c, q)
        ensures Before(q, Pos(NBUCKET, 0))
      {
      }
    }
    BestIsUnique(c, Intended, a, Victim(c, Intended));
  }

  /** While trash buffers are idle, the intended scan only recycles a
      buffer nobody holds a reference to. */
  lemma VictimIsFree(c: Cache)
    requires Shaped(c) && TrashIdle(c)
    ensures Victim(c, Intended).Some? ==> At(c, Victim(c, Intended).value).refcnt == 0
  {
    VictimRulesAgree(c);
    AsWrittenVictimIsFree(c);
  }

  // ---------------------------------------------------------------------
  // Sequential use keeps trash buffers idle and locked buffers live

  /** A lookup from a state reachable by sequential calls keeps it so; on
      a miss the recycled buffer was unreferenced. */
  lemma LookupKeepsSeqInv(c: Cache, dev: word, blockno: word)
    requires SeqInv(c)
    ensures Lookup(c, dev, blockno).Ok? ==> SeqInv(Lookup(c, dev, blockno).value.0)
    ensures Lookup(c, dev, blockno).Ok? && Search(c, Key(dev, blockno), dev, blockno).None? ==>
      c.bufs[Lookup(c, dev, blockno).value.1].refcnt == 0
  {
    var key := Key(dev, blockno);
    match Search(c, key, dev, blockno)
    case Some(b) =>
      LookupKeepsInv(c, dev, blockno);
      assert Lookup(c, dev, blockno).value.0 == Touch(c, b);
    case None =>
      match Victim(c, AsWritten)
      case None =>
      case Some(v) =>
        AsWrittenVictimIsFree(c);
        RecycleKeepsSeqInv(c, dev, blockno, v);
  }

  /** Recycling an unreferenced buffer keeps the sequential invariant. */
  lemma RecycleKeepsSeqInv(c: Cache, dev: word, blockno: word, v: Pos)
    requires SeqInv(c) && ValidPos(c, v) && At(c, v).refcnt == 0
    requires Search(c, Key(dev, blockno), dev, blockno).None?
    ensures SeqInv(Recycle(c, dev, blockno, v).0)
  {
    RecycleKeepsInv(c, dev, blockno, v);
  }

  lemma BgetKeepsSeqInv(c: Cache, dev: word, blockno: word)
    requires SeqInv(c)
    ensures Bget(c, dev, blockno).Ok? ==> SeqInv(Bget(c, dev, blockno).value.cache)
  {
    LookupKeepsSeqInv(c, dev, blockno);
    match Lookup(c, dev, blockno)
    case Panic(_) =>
    case Ok((c1, i)) =>
      AcquireKeepsSeqInv(c1, i);
  }

  /** Locking a live buffer keeps the sequential invariant. */
  lemma AcquireKeepsSeqInv(c: Cache, i: nat)
    requires SeqInv(c) && i < |c.bufs| && !c.bufs[i].trash
    ensures SeqInv(AcquireSleep(c, i).cache)
  {
    SameLabels(c, AcquireSleep(c, i).cache);
  }

  lemma BreadKeepsSeqInv(c: Cache, dev: word, blockno: word)
    requires SeqInv(c)
    ensures Bread(c, dev, blockno).Ok? ==> SeqInv(Bread(c, dev, blockno).value.cache)
  {
    BgetKeepsSeqInv(c, dev, blockno);
    match Bget(c, dev, blockno)
    case Panic(_) =>
    case Ok(g) =>
      ReadInKeepsSeqInv(g);
  }

  /** Marking a buffer's data valid keeps the sequential invariant. */
  lemma ReadInKeepsSeqInv(g: Got)
    requires SeqInv(g.cache) && g.buf < |g.cache.bufs|
    ensures SeqInv(ReadIn(g).cache)
  {
    SameLabels(g.cache, ReadIn(g).cache);
  }

  /** `brelse` needs no caller discipline: a held buffer is live. */
  lemma BrelseKeepsSeqInv(c: Cache, i: nat, ticks: uint)
    requires SeqInv(c) && i < |c.bufs|
    ensures Brelse(c, i, ticks).Ok? ==> SeqInv(Brelse(c, i, ticks).value)
  {
    if Brelse(c, i, ticks).Ok? {
      SameLabels(c, Brelse(c, i, ticks).value);
    }
  }

  /** `bpin` and `bunpin` are called by the holder of the buffer. */
  lemma BpinKeepsSeqInv(c: Cache, i: nat)
    requires SeqInv(c) && i < |c.bufs| && c.bufs[i].held
    ensures SeqInv(Bpin(c, i))
  {
    SameLabels(c, Bpin(c, i));
  }

  lemma BunpinKeepsSeqInv(c: Cache, i: nat)
    requires SeqInv(c) && i < |c.bufs| && c.bufs[i].held
    ensures SeqInv(Bunpin(c, i))
  {
    SameLabels(c, Bunpin(c, i));
  }

  // ---------------------------------------------------------------------
  // The test of bio.c:135 on a state where a trash buffer is not idle

  /** Bucket 0 holds a trash buffer last used at tick 5, followed by the
      live copy of block 0 of device 0, locked with one reference; the
      other buckets are empty. */
  function StaleTrash(): (c: Cache)
    ensures |c.bufs| == 2 && |c.buckets| == NBUCKET && c.buckets[0] == [0, 1]
    ensures forall k :: 1 <= k < NBUCKET ==> c.buckets[k] == []
  {
    Cache([Buf(true, false, 0, 0, 0, 5, false), Buf(false, true, 0, 0, 1, 0, true)],
          seq(NBUCKET, k => if k == 0 then [0, 1] else []))
  }

  /** The state satisfies the cache invariant, but its trash buffer is
      not idle. */
  lemma StaleTrashInv()
    ensures CacheInv(StaleTrash()) && !TrashIdle(StaleTrash())
  {
    var c := StaleTrash();
    StaleTrashPartition();
    KeyOfDeviceZero(0);
    assert Key(0, 0) == 0;
    forall i | 0 <= i < |c.bufs| && !c.bufs[i].trash
      ensures i in c.buckets[Key(c.bufs[i].dev, c.bufs[i].blockno)]
    {
      assert i == 1 && c.bufs[1].dev == 0 && c.bufs[1].blockno == 0;
    }
    assert Unique(c);
    assert c.bufs[0].trash && c.bufs[0].lastuse != 0;
  }

  lemma StaleTrashPartition()
    ensures Partition(StaleTrash(), {})
  {
    var c := StaleTrash();
    forall k, j | 0 <= k < NBUCKET && 0 <= j < |c.buckets[k]|
      ensures c.buckets[k][j] < |c.bufs|
    {
      assert k == 0;
    }
    forall k1, k2, i | 0 <= k1 < NBUCKET && 0 <= k2 < NBUCKET && k1 != k2 && i in c.buckets[k1]
      ensures i !in c.buckets[k2]
    {
      assert k1 == 0 && c.buckets[k2] == [];
    }
    assert 0 in c.buckets[0] && 1 in c.buckets[0];
    assert Attached(c, 0) && Attached(c, 1);
  }

  /** Only positions (0, 0) and (0, 1) exist in that state. */
  lemma StaleTrashPositions(p: Pos)
    requires ValidPos(StaleTrash(), p)
    ensures p == Pos(0, 0) || p == Pos(0, 1)
  {
  }

  /** On that state the test as written chooses the referenced, locked
      buffer (its predecessor is trash and it was used longer ago), so a
      lookup of another block would relabel the buffer its holder is
      using. */
  lemma AsWrittenEvictsReferenced()
    ensures Victim(StaleTrash(), AsWritten) == Some(Pos(0, 1))
    ensures At(StaleTrash(), Pos(0, 1)).refcnt == 1 && At(StaleTrash(), Pos(0, 1)).held
  {
    var c := StaleTrash();
    var q := Pos(0, 1);
    assert ValidPos(c, q) && Eligible(c, AsWritten, q) && At(c, q).lastuse == 0;
    var v := Victim(c, AsWritten).value;
    StaleTrashPositions(v);
    assert At(c, v).lastuse <= At(c, q).lastuse;
    assert At(c, Pos(0, 0)).lastuse == 5;
  }

  /** The intended test chooses the trash buffer on the same state. */
  lemma IntendedSkipsReferenced()
    ensures Victim(StaleTrash(), Intended) == Some(Pos(0, 0))
    ensures At(StaleTrash(), Pos(0, 0)).trash
  {
    var c := StaleTrash();
    var q := Pos(0, 0);
    assert ValidPos(c, q) && Eligible(c, Intended, q);
    var v := Victim(c, Intended).value;
    StaleTrashPositions(v);
    assert Eligible(c, Intended, v);
    assert !Eligible(c, Intended, Pos(0, 1));
  }
}
