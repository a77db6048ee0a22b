/**
 The walk of deallocuvm and cow_deallocuvm (vm.c) over a two-level page table,
 in page numbers: a missing page directory entry skips NPTENTRIES pages.
 */
module PageWalk {

  const PGSIZE: nat := 4096
  const NPTENTRIES: nat := 1024

  /** Pages needed for sz bytes; also PGROUNDUP(sz) / PGSIZE. */
  function Pages(sz: nat): nat {
    (sz + PGSIZE - 1) / PGSIZE
  }

  /** The least number of whole pages that hold sz bytes. */
  lemma PagesLeast(sz: nat, n: nat)
    ensures sz <= n * PGSIZE <==> Pages(sz) <= n
  {
  }

  function PDX(v: nat): nat {
    v / NPTENTRIES
  }

  function PTX(v: nat): nat {
    v % NPTENTRIES
  }

  /** The pages whose entries the loop looks at, from page a up to page hi. */
  function Visited(pds: set<nat>, a: nat, hi: nat): set<nat>
    decreases if a < hi then hi - a else 0
  {
    if a >= hi then {}
    else if PDX(a) !in pds then Visited(pds, a + NPTENTRIES, hi)
    else {a} + Visited(pds, a + 1, hi)
  }

  /** Some page table lies between the start and page v. */
  ghost predicate TableBefore(pds: set<nat>, a: nat, v: nat) {
    exists d :: d in pds && PDX(a) <= d < PDX(v)
  }

  /**
   Exactly which pages the walk reaches: those with a page table, unless the
   page's table is the first one from the start on and the page lies below the
   start's offset in it.
   */
  lemma {:induction false} VisitedExactly(pds: set<nat>, a: nat, hi: nat, v: nat)
    ensures v in Visited(pds, a, hi) <==>
            a <= v < hi && PDX(v) in pds && (PTX(v) >= PTX(a) || TableBefore(pds, a, v))
    decreases if a < hi then hi - a else 0
  {
    if a < hi {
      if PDX(a) !in pds {
        VisitedExactly(pds, a + NPTENTRIES, hi, v);
        assert PDX(a + NPTENTRIES) == PDX(a) + 1 && PTX(a + NPTENTRIES) == PTX(a);
        assert TableBefore(pds, a, v) <==> TableBefore(pds, a + NPTENTRIES, v);
      } else {
        VisitedExactly(pds, a + 1, hi, v);
        NextPage(a);
        if v > a {
          assert PDX(v) > PDX(a) ==> TableBefore(pds, a, v);
          assert PTX(a + 1) != 0 && PDX(v) > PDX(a) ==> TableBefore(pds, a + 1, v);
        }
      }
    }
  }

  lemma NextPage(a: nat)
    ensures PTX(a + 1) == 0 ==> PDX(a + 1) == PDX(a) + 1
    ensures PTX(a + 1) != 0 ==> PDX(a + 1) == PDX(a) && PTX(a + 1) == PTX(a) + 1
  {
  }

  /** From a 4 MB boundary the skip misses nothing. */
  lemma AlignedStartMissesNothing(pds: set<nat>, a: nat, hi: nat, v: nat)
    requires PTX(a) == 0 && a <= v < hi && PDX(v) in pds
    ensures v in Visited(pds, a, hi)
  {
    VisitedExactly(pds, a, hi, v);
  }

  /** Nor does it when the pages are contiguous from 0, whatever the start. */
  lemma ContiguousMissesNothing(pds: set<nat>, n: nat, a: nat, hi: nat, v: nat)
    requires forall p :: 0 <= p < n ==> PDX(p) in pds
    requires a <= v < hi && v < n
    ensures v in Visited(pds, a, hi)
  {
    VisitedExactly(pds, a, hi, v);
    assert PDX(a) in pds;
    assert PDX(v) > PDX(a) ==> TableBefore(pds, a, v);
  }

  /** Otherwise it can: page 1024 is mapped, the start is page 1, and no table covers page 1. */
  lemma SkipMissesPage()
    ensures 1024 !in Visited({1}, 1, 2048) && 1 <= 1024 < 2048 && PDX(1024) in {1}
  {
    VisitedExactly({1}, 1, 2048, 1024);
  }
}
