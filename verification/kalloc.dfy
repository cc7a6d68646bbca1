/** The physical page allocator with copy-on-write reference counts.

    Physical pages are named by their addresses.  The free list is a
    sequence of page addresses (head first), `pageref` maps the index
    `(pa - KERNBASE) / PGSIZE` of every page below `PHYSTOP` to its signed
    reference count, and `mem` maps each page address to its contents.
    The `struct run` link that a free page holds in its first bytes is
    kept in `freelist`, not in `mem`.
 */
module Kalloc {
  import opened Outcomes
  import opened Seqs

  const PGSIZE: nat := 4096

  /** Page contents. */
  type Page = seq<bv8>

  /** A page filled with the byte `b` (the `memset` junk patterns). */
  function Fill(b: bv8): (p: Page)
    ensures |p| == PGSIZE && forall i :: 0 <= i < |p| ==> p[i] == b
  {
    seq(PGSIZE, _ => b)
  }

  /** The physical memory layout: `KERNBASE`, the linker symbol `end`
      (first address after the kernel) and `PHYSTOP`. */
  datatype Layout = Layout(kernbase: nat, kend: nat, phystop: nat)
  {
    predicate Valid()
    {
      && 0 < kernbase && kernbase % PGSIZE == 0
      && kernbase <= kend <= phystop
      && phystop % PGSIZE == 0
    }

    /** `PA2PGREF_ID`: the index of the counter for address `pa`. */
    function RefId(pa: nat): int
    {
      (pa - kernbase) / PGSIZE
    }

    /** `PGREF_MAX_ENTRIES`: the number of counters. */
    function Entries(): int
    {
      RefId(phystop)
    }

    /** The page whose counter has index `id`. */
    function PageAddr(id: int): int
    {
      kernbase + id * PGSIZE
    }

    /** An address whose counter lies inside the `pageref` array. */
    predicate InArena(pa: nat)
    {
      kernbase <= pa < phystop
    }

    /** An address that `kfree` accepts: page-aligned, at or above `end`
        and below `PHYSTOP`.  These are the pages the allocator manages. */
    predicate Managed(pa: nat)
    {
      pa % PGSIZE == 0 && kend <= pa < phystop
    }
  }

  /** `PA2PGREF_ID` gives every address below `PHYSTOP` a counter inside
      the array, and distinct pages distinct counters. */
  lemma RefIdInRange(L: Layout, pa: nat, qa: nat)
    requires L.Valid() && L.InArena(pa) && L.InArena(qa)
    ensures 0 <= L.RefId(pa) < L.Entries()
    ensures pa % PGSIZE == 0 ==> L.PageAddr(L.RefId(pa)) == pa
    ensures pa % PGSIZE == 0 && qa % PGSIZE == 0 && pa != qa ==> L.RefId(pa) != L.RefId(qa)
  {
  }

  /** `PGROUNDUP`: the first page boundary at or above `a`. */
  function PgRoundUp(a: nat): (r: nat)
    ensures r % PGSIZE == 0 && a <= r < a + PGSIZE
  {
    ((a + PGSIZE - 1) / PGSIZE) * PGSIZE
  }

  /** The allocator's state: the free list `kmem.freelist`, the counter
      array `pageref` and the contents of every page. */
  datatype Kmem = Kmem(freelist: seq<nat>, pageref: map<int, int>, mem: map<nat, Page>)

  /** The state has a counter for every index and contents for every
      page below `PHYSTOP`, and the free list holds managed pages only. */
  ghost predicate Shaped(L: Layout, s: Kmem)
  {
    && (forall id :: 0 <= id < L.Entries() ==> id in s.pageref)
    && (forall pa: nat :: L.InArena(pa) && pa % PGSIZE == 0 ==> pa in s.mem)
    && (forall i :: 0 <= i < |s.freelist| ==> L.Managed(s.freelist[i]))
  }

  /** The count of the page at `pa`. */
  function Ref(L: Layout, s: Kmem, pa: nat): int
    requires L.Valid() && Shaped(L, s) && L.InArena(pa)
  {
    RefIdInRange(L, pa, pa);
    s.pageref[L.RefId(pa)]
  }

  /** The allocator's invariant: no page is twice on the free list, and
      every managed page is either free with a count of at most 0, or in
      use with a count of at least 1. */
  ghost predicate Inv(L: Layout, s: Kmem)
    requires L.Valid()
  {
    && Shaped(L, s)
    && NoDup(s.freelist)
    && forall pa: nat :: L.Managed(pa) ==>
         if pa in s.freelist then Ref(L, s, pa) <= 0 else Ref(L, s, pa) >= 1
  }

  // ---------------------------------------------------------------------
  // Operations
  // ---------------------------------------------------------------------

  /** `kfree`: panics unless `pa` is managed.  Otherwise the page's count
      drops by one; if it is then at most 0 the page is filled with 1s
      and pushed on the free list, else nothing else changes. */
  function Kfree(L: Layout, s: Kmem, pa: nat): (r: Outcome<Kmem>)
    requires L.Valid() && Shaped(L, s)
    ensures r.Panic? <==> !L.Managed(pa)
    ensures r.Ok? ==> Shaped(L, r.value)
    ensures r.Ok? ==> var t := r.value;
      && t.pageref.Keys == s.pageref.Keys
      && t.pageref[L.RefId(pa)] == s.pageref[L.RefId(pa)] - 1
      && (forall id :: id in s.pageref && id != L.RefId(pa) ==> t.pageref[id] == s.pageref[id])
      && (t.pageref[L.RefId(pa)] <= 0 ==> t.freelist == [pa] + s.freelist && t.mem == s.mem[pa := Fill(1)])
      && (t.pageref[L.RefId(pa)] > 0 ==> t.freelist == s.freelist && t.mem == s.mem)
  {
    if pa % PGSIZE != 0 || pa < L.kend || pa >= L.phystop then Panic("kfree")
    else
      RefIdInRange(L, pa, pa);
      var id := L.RefId(pa);
      var s1 := s.(pageref := s.pageref[id := s.pageref[id] - 1]);
      if s1.pageref[id] <= 0 then
        Ok(s1.(mem := s1.mem[pa := Fill(1)], freelist := [pa] + s1.freelist))
      else Ok(s1)
  }

  /** `kalloc`: returns 0 and changes nothing when the free list is empty;
      otherwise takes the head page off the list, fills it with 5s, sets
      its count to 1 and returns it. */
  function Kalloc(L: Layout, s: Kmem): (r: (Kmem, nat))
    requires L.Valid() && Shaped(L, s)
    ensures Shaped(L, r.0)
    ensures s.freelist == [] <==> r.1 == 0
    ensures s.freelist == [] ==> r.0 == s
    ensures s.freelist != [] ==> var pa := r.1;
      && pa == s.freelist[0] && L.Managed(pa)
      && r.0.freelist == s.freelist[1..]
      && r.0.mem == s.mem[pa := Fill(5)]
      && r.0.pageref == s.pageref[L.RefId(pa) := 1]
  {
    if s.freelist == [] then (s, 0)
    else
      var pa := s.freelist[0];
      RefIdInRange(L, pa, pa);
      (Kmem(s.freelist[1..], s.pageref[L.RefId(pa) := 1], s.mem[pa := Fill(5)]), pa)
  }

  /** `kcopy_n_deref`: with a count of at most 1 the page is returned and
      nothing changes.  Otherwise a fresh page is allocated; if there is
      none, 0 is returned and nothing changes; else the fresh page
      receives a copy of the original, the original's count drops by one,
      and the fresh page is returned. */
  function KcopyNDeref(L: Layout, s: Kmem, pa: nat): (r: (Kmem, nat))
    requires L.Valid() && Shaped(L, s) && L.InArena(pa) && pa % PGSIZE == 0
    ensures Shaped(L, r.0)
    ensures Ref(L, s, pa) <= 1 ==> r == (s, pa)
    ensures Ref(L, s, pa) > 1 && s.freelist == [] ==> r == (s, 0)
    ensures Ref(L, s, pa) > 1 && s.freelist != [] ==> var np := r.1;
      && np == s.freelist[0] && r.0.freelist == s.freelist[1..]
      && (np != pa ==> r.0.mem == s.mem[np := s.mem[pa]] && Ref(L, r.0, np) == 1 && Ref(L, r.0, pa) == Ref(L, s, pa) - 1)
      && (forall q: nat :: L.InArena(q) && q % PGSIZE == 0 && q != pa && q != np ==> Ref(L, r.0, q) == Ref(L, s, q))
  {
    if Ref(L, s, pa) <= 1 then (s, pa)
    else
      var (s1, np) := Kalloc(L, s);
      if np == 0 then (s, 0)
      else
        RefIdInRange(L, pa, np);
        var id := L.RefId(pa);
        var s2 := s1.(mem := s1.mem[np := s1.mem[pa]], pageref := s1.pageref[id := s1.pageref[id] - 1]);
        forall q: nat | L.InArena(q) && q % PGSIZE == 0 && q != pa && q != np
          ensures Ref(L, s2, q) == Ref(L, s, q)
        {
          RefIdInRange(L, q, pa);
          RefIdInRange(L, q, np);
        }
        (s2, np)
  }

  /** `krefpage`: one more reference to `pa`; nothing else changes. */
  function Krefpage(L: Layout, s: Kmem, pa: nat): (r: Kmem)
    requires L.Valid() && Shaped(L, s) && L.InArena(pa)
    ensures Shaped(L, r) && r.freelist == s.freelist && r.mem == s.mem
    ensures Ref(L, r, pa) == Ref(L, s, pa) + 1
    ensures forall q: nat :: L.InArena(q) && L.RefId(q) != L.RefId(pa) ==> Ref(L, r, q) == Ref(L, s, q)
  {
    RefIdInRange(L, pa, pa);
    s.(pageref := s.pageref[L.RefId(pa) := s.pageref[L.RefId(pa)] + 1])
  }

  // ---------------------------------------------------------------------
  // freerange and kinit
  // ---------------------------------------------------------------------

  /** The pages `p` with `lo <= p` and `p + PGSIZE <= hi`, highest first:
      the order in which repeated pushes leave them on the free list. */
  function Desc(lo: nat, hi: nat): seq<nat>
    decreases hi
  {
    if hi < lo + PGSIZE then [] else [hi - PGSIZE] + Desc(lo, hi - PGSIZE)
  }

  lemma {:induction false} DescMembers(lo: nat, hi: nat)
    requires lo % PGSIZE == 0 && hi % PGSIZE == 0
    ensures forall i :: 0 <= i < |Desc(lo, hi)| ==> Desc(lo, hi)[i] % PGSIZE == 0
    ensures forall q: nat :: q in Desc(lo, hi) <==> q % PGSIZE == 0 && lo <= q && q + PGSIZE <= hi
    ensures forall i, j :: 0 <= i < j < |Desc(lo, hi)| ==> Desc(lo, hi)[i] > Desc(lo, hi)[j]
    decreases hi
  {
    if hi >= lo + PGSIZE {
      DescMembers(lo, hi - PGSIZE);
      var rest := Desc(lo, hi - PGSIZE);
      assert forall j :: 0 <= j < |rest| ==> rest[j] in rest;
    }
  }

  /** A page that `freerange(start, end)` frees: page-aligned, at or
      above `PGROUNDUP(start)` and wholly below `end`. */
  predicate InRange(start: nat, end: nat, p: nat)
  {
    p % PGSIZE == 0 && PgRoundUp(start) <= p && p + PGSIZE <= end
  }

  /** Where the loop of `freerange(start, end)` stops: the first page
      boundary from `PGROUNDUP(start)` on whose page does not fit below `end`. */
  function Stop(start: nat, end: nat): (p: nat)
    ensures p % PGSIZE == 0 && PgRoundUp(start) <= p && end < p + PGSIZE
    ensures forall q: nat :: InRange(start, end, q) <==> q % PGSIZE == 0 && PgRoundUp(start) <= q < p
  {
    var first := PgRoundUp(start);
    if end < first + PGSIZE then first else end - end % PGSIZE
  }

  /** Every page of `[first, hi)` has count 0 in `s`. */
  ghost predicate FreshPages(L: Layout, s: Kmem, first: nat, hi: nat)
    requires L.Valid() && Shaped(L, s)
  {
    forall q: nat :: q % PGSIZE == 0 && first <= q && q + PGSIZE <= hi && L.InArena(q) ==> Ref(L, s, q) == 0
  }

  /** `cur` is `s` after `kfree` of the pages of `[first, p)`: their counts
      are one lower and those that reached at most 0 are filled with 1s. */
  ghost predicate Freed(L: Layout, s: Kmem, first: nat, p: nat, cur: Kmem)
    requires L.Valid() && Shaped(L, s)
  {
    && Shaped(L, cur) && cur.pageref.Keys == s.pageref.Keys
    && (forall id :: 0 <= id < L.Entries() ==>
          cur.pageref[id] == s.pageref[id] - (if first <= L.PageAddr(id) < p then 1 else 0))
    && (forall q: nat :: L.InArena(q) && q % PGSIZE == 0 ==>
          cur.mem[q] == if first <= q < p && Ref(L, s, q) <= 1 then Fill(1) else s.mem[q])
  }

  /** One iteration of the `freerange` loop. */
  lemma FreeStep(L: Layout, s: Kmem, first: nat, p: nat, cur: Kmem)
    requires L.Valid() && Shaped(L, s) && Freed(L, s, first, p, cur)
    requires L.Managed(p) && first <= p
    ensures Kfree(L, cur, p).Ok? && Freed(L, s, first, p + PGSIZE, Kfree(L, cur, p).value)
    ensures FreshPages(L, s, first, p + PGSIZE) && cur.freelist == Desc(first, p) + s.freelist ==>
      Kfree(L, cur, p).value.freelist == Desc(first, p + PGSIZE) + s.freelist
  {
    var t := Kfree(L, cur, p).value;
    RefIdInRange(L, p, p);
    forall id | 0 <= id < L.Entries()
      ensures t.pageref[id] == s.pageref[id] - (if first <= L.PageAddr(id) < p + PGSIZE then 1 else 0)
    {
      assert L.PageAddr(id) == p <==> id == L.RefId(p);
    }
    forall q: nat | L.InArena(q) && q % PGSIZE == 0
      ensures t.mem[q] == if first <= q < p + PGSIZE && Ref(L, s, q) <= 1 then Fill(1) else s.mem[q]
    {
      RefIdInRange(L, q, p);
    }
    if FreshPages(L, s, first, p + PGSIZE) {
      assert Ref(L, s, p) == 0;
    }
  }

  /** At the end of the loop, the pages of `[first, p)` are exactly the
      pages in range. */
  lemma FreedAtStop(L: Layout, s: Kmem, start: nat, end: nat, cur: Kmem)
    requires L.Valid() && Shaped(L, s) && Freed(L, s, PgRoundUp(start), Stop(start, end), cur)
    ensures Shaped(L, cur)
    ensures forall id :: 0 <= id < L.Entries() ==>
      cur.pageref[id] == s.pageref[id] - (if InRange(start, end, L.PageAddr(id)) then 1 else 0)
    ensures forall q: nat :: L.InArena(q) && q % PGSIZE == 0 ==>
      cur.mem[q] == if InRange(start, end, q) && Ref(L, s, q) <= 1 then Fill(1) else s.mem[q]
  {
    var first, p := PgRoundUp(start), Stop(start, end);
    forall id | 0 <= id < L.Entries()
      ensures cur.pageref[id] == s.pageref[id] - (if InRange(start, end, L.PageAddr(id)) then 1 else 0)
    {
      assert L.PageAddr(id) % PGSIZE == 0;
      assert first <= L.PageAddr(id) < p <==> InRange(start, end, L.PageAddr(id));
    }
  }

  /** Two page boundaries less than a page apart are the same. */
  lemma SameBoundary(p: nat, q: int)
    requires p % PGSIZE == 0 && q % PGSIZE == 0 && p <= q < p + PGSIZE
    ensures q == p
  {
  }

  /** Every page boundary of `[first, p)` is managed. */
  predicate ManagedUpTo(L: Layout, first: nat, p: nat)
  {
    forall q: nat :: q % PGSIZE == 0 && first <= q < p ==> L.Managed(q)
  }

  lemma ManagedStep(L: Layout, first: nat, p: nat)
    requires p % PGSIZE == 0 && ManagedUpTo(L, first, p) && L.Managed(p)
    ensures (p + PGSIZE) % PGSIZE == 0 && ManagedUpTo(L, first, p + PGSIZE)
  {
    forall q: nat | q % PGSIZE == 0 && first <= q < p + PGSIZE
      ensures L.Managed(q)
    {
      if p <= q {
        SameBoundary(p, q);
      }
    }
  }

  /** The loop of `freerange` leaves `p` at `Stop(start, end)`. */
  lemma LoopExit(start: nat, end: nat, p: nat)
    requires p % PGSIZE == 0 && PgRoundUp(start) <= p && end < p + PGSIZE
    requires p == PgRoundUp(start) || p <= end
    ensures p == Stop(start, end)
  {
    if p != PgRoundUp(start) {
      SameBoundary(p, end - end % PGSIZE);
    }
  }

  /** `freerange`: `kfree` every whole page from `PGROUNDUP(start)` up
      to `end`.  It panics exactly when one of those pages is not
      managed.  Otherwise every such page's count drops by one and the
      pages whose count reaches at most 0 are filled with 1s; when all of
      their counts were 0, all of them end up on the free list, highest
      address first. */
  method Freerange(L: Layout, s: Kmem, start: nat, end: nat) returns (r: Outcome<Kmem>)
    requires L.Valid() && Shaped(L, s)
    ensures r.Ok? <==> forall p: nat :: InRange(start, end, p) ==> L.Managed(p)
    ensures r.Ok? ==> Shaped(L, r.value)
    ensures r.Ok? ==> forall id :: 0 <= id < L.Entries() ==>
      r.value.pageref[id] == s.pageref[id] - (if InRange(start, end, L.PageAddr(id)) then 1 else 0)
    ensures r.Ok? ==> forall q: nat :: L.InArena(q) && q % PGSIZE == 0 ==>
      r.value.mem[q] == if InRange(start, end, q) && Ref(L, s, q) <= 1 then Fill(1) else s.mem[q]
    ensures r.Ok? && FreshPages(L, s, PgRoundUp(start), end) ==>
      r.value.freelist == Desc(PgRoundUp(start), Stop(start, end)) + s.freelist
  {
    var first := PgRoundUp(start);
    var p := first;
    var cur := s;
    while p + PGSIZE <= end
      invariant first <= p && p % PGSIZE == 0 && (p == first || p <= end)
      invariant ManagedUpTo(L, first, p)
      invariant Freed(L, s, first, p, cur)
      invariant FreshPages(L, s, first, end) ==> cur.freelist == Desc(first, p) + s.freelist
      decreases end - p
    {
      if !L.Managed(p) {
        assert InRange(start, end, p);
        return Kfree(L, cur, p);
      }
      FreeStep(L, s, first, p, cur);
      cur := Kfree(L, cur, p).value;
      ManagedStep(L, first, p);
      p := p + PGSIZE;
    }
    LoopExit(start, end, p);
    FreedAtStop(L, s, start, end, cur);
    return Ok(cur);
  }

  /** The counter array as the zero-initialised kernel image holds it. */
  function Zeros(n: int): (m: map<int, int>)
    ensures forall id :: 0 <= id < n ==> id in m && m[id] == 0
    decreases n
  {
    if n <= 0 then map[] else Zeros(n - 1)[n - 1 := 0]
  }

  /** The managed pages are those `freerange(end, PHYSTOP)` frees, and
      its loop runs up to `PHYSTOP`. */
  lemma ManagedIsRange(L: Layout)
    requires L.Valid()
    ensures forall pa: nat :: L.Managed(pa) <==> InRange(L.kend, L.phystop, pa)
    ensures Stop(L.kend, L.phystop) == L.phystop
  {
    var first := PgRoundUp(L.kend);
    forall pa: nat | L.Managed(pa)
      ensures first <= pa
    {
      if pa < first {
        SameBoundary(pa, first);
      }
    }
    if L.phystop >= first + PGSIZE {
      assert L.phystop % PGSIZE == 0;
    } else if first < L.phystop {
      SameBoundary(first, L.phystop);
    }
  }

  /** `kinit`: `freerange(end, PHYSTOP)` over a zeroed counter array.
      Every managed page ends up on the free list, highest first, with
      count -1 and filled with 1s, and the invariant holds. */
  method Kinit(L: Layout, mem0: map<nat, Page>) returns (r: Outcome<Kmem>)
    requires L.Valid() && forall pa: nat :: L.InArena(pa) && pa % PGSIZE == 0 ==> pa in mem0
    ensures r.Ok? && Inv(L, r.value)
    ensures r.value.freelist == Desc(PgRoundUp(L.kend), L.phystop)
    ensures forall pa: nat :: L.Managed(pa) ==> Ref(L, r.value, pa) == -1 && r.value.mem[pa] == Fill(1)
  {
    var s := Kmem([], Zeros(L.Entries()), mem0);
    ManagedIsRange(L);
    r := Freerange(L, s, L.kend, L.phystop);
    var t := r.value;
    DescMembers(PgRoundUp(L.kend), L.phystop);
    DescNoDup(PgRoundUp(L.kend), L.phystop);
    forall pa: nat | L.Managed(pa)
      ensures Ref(L, t, pa) == -1 && (pa in t.freelist <==> true)
    {
      RefIdInRange(L, pa, pa);
    }
  }

  /** The pages of a descending run are distinct. */
  lemma DescNoDup(lo: nat, hi: nat)
    requires lo % PGSIZE == 0 && hi % PGSIZE == 0
    ensures NoDup(Desc(lo, hi))
  {
    DescMembers(lo, hi);
    var d := Desc(lo, hi);
    forall a, b | 0 <= a < b < |d|
      ensures d[a] != d[b]
    {
      assert d[a] > d[b];
    }
  }

  // ---------------------------------------------------------------------
  // The invariant
  // ---------------------------------------------------------------------

  /** `kfree` of a page in use keeps the invariant. */
  lemma KfreeKeepsInv(L: Layout, s: Kmem, pa: nat)
    requires L.Valid() && Inv(L, s) && L.Managed(pa) && Ref(L, s, pa) >= 1
    ensures Kfree(L, s, pa).Ok? && Inv(L, Kfree(L, s, pa).value)
  {
    var t := Kfree(L, s, pa).value;
    forall q: nat | L.Managed(q)
      ensures if q in t.freelist then Ref(L, t, q) <= 0 else Ref(L, t, q) >= 1
    {
      RefIdInRange(L, q, pa);
    }
  }

  /** There is no double-free guard: `kfree` of a page already on the
      free list pushes it a second time. */
  lemma DoubleFreeDuplicates(L: Layout, s: Kmem, pa: nat)
    requires L.Valid() && Inv(L, s) && pa in s.freelist
    ensures Kfree(L, s, pa).Ok?
    ensures var t := Kfree(L, s, pa).value;
      t.freelist[0] == pa && pa in t.freelist[1..] && !NoDup(t.freelist)
  {
    var i :| 0 <= i < |s.freelist| && s.freelist[i] == pa;
    RefIdInRange(L, pa, pa);
    var t := Kfree(L, s, pa).value;
    assert t.freelist[i + 1] == pa;
  }

  /** `kalloc` keeps the invariant. */
  lemma KallocKeepsInv(L: Layout, s: Kmem)
    requires L.Valid() && Inv(L, s)
    ensures Inv(L, Kalloc(L, s).0)
  {
    if s.freelist != [] {
      var (t, pa) := Kalloc(L, s);
      forall q: nat | L.Managed(q)
        ensures if q in t.freelist then Ref(L, t, q) <= 0 else Ref(L, t, q) >= 1
      {
        RefIdInRange(L, q, pa);
        if q in t.freelist {
          var i :| 0 <= i < |t.freelist| && t.freelist[i] == q;
          assert s.freelist[i + 1] == q;
        }
      }
    }
  }

  /** Under the invariant the page `kcopy_n_deref` copies into is never
      the page it copies from, so the copy has the original's contents;
      and the invariant is kept. */
  lemma KcopyKeepsInv(L: Layout, s: Kmem, pa: nat)
    requires L.Valid() && Inv(L, s) && L.InArena(pa) && pa % PGSIZE == 0
    ensures var (t, np) := KcopyNDeref(L, s, pa);
      && Inv(L, t)
      && (Ref(L, s, pa) > 1 && np != 0 ==> np != pa && t.mem[np] == s.mem[pa])
  {
    var (t, np) := KcopyNDeref(L, s, pa);
    if Ref(L, s, pa) > 1 && np != 0 {
      assert np != pa by {
        if L.Managed(pa) {
          assert pa !in s.freelist;
        }
      }
      forall q: nat | L.Managed(q)
        ensures if q in t.freelist then Ref(L, t, q) <= 0 else Ref(L, t, q) >= 1
      {
        RefIdInRange(L, q, pa);
        if q in t.freelist {
          var i :| 0 <= i < |t.freelist| && t.freelist[i] == q;
          assert s.freelist[i + 1] == q;
        }
      }
    }
  }

  /** `krefpage` of a page that is not free keeps the invariant. */
  lemma KrefpageKeepsInv(L: Layout, s: Kmem, pa: nat)
    requires L.Valid() && Inv(L, s) && L.InArena(pa) && pa % PGSIZE == 0
    requires L.Managed(pa) ==> Ref(L, s, pa) >= 1
    ensures Inv(L, Krefpage(L, s, pa))
  {
    var t := Krefpage(L, s, pa);
    forall q: nat | L.Managed(q)
      ensures if q in t.freelist then Ref(L, t, q) <= 0 else Ref(L, t, q) >= 1
    {
      RefIdInRange(L, q, pa);
    }
  }

  /** The copy-on-write round trip: a page is allocated, shared by a
      second owner, and both owners ask for a writable copy.  The first
      gets a fresh page with the same contents and the original's count
      falls back to 1; the second then gets the original itself. */
  lemma CopyOnWriteRoundTrip(L: Layout, s: Kmem)
    requires L.Valid() && Inv(L, s) && |s.freelist| >= 2
    ensures var (s1, pa) := Kalloc(L, s);
      var s2 := Krefpage(L, s1, pa);
      var (s3, np) := KcopyNDeref(L, s2, pa);
      var (s4, back) := KcopyNDeref(L, s3, pa);
      && Ref(L, s2, pa) == 2
      && np != 0 && np != pa && s3.mem[np] == s3.mem[pa] == Fill(5)
      && Ref(L, s3, pa) == 1 && Ref(L, s3, np) == 1
      && back == pa && s4 == s3
      && Inv(L, s4)
  {
    var (s1, pa) := Kalloc(L, s);
    KallocKeepsInv(L, s);
    var s2 := Krefpage(L, s1, pa);
    KrefpageKeepsInv(L, s1, pa);
    assert s2.freelist == s.freelist[1..];
    KcopyKeepsInv(L, s2, pa);
  }
}
