/** The loops of vm.c and the page pool of kalloc.c, updating the system in place. */
module VirtualMemory {
  import opened Blocks
  import opened PageWalk
  import opened Cow
  import opened CowCells
  import opened CowRefinement

  // ---------- vm.c and kalloc.c ----------

  /** Every mapped page has a page table. */
  ghost predicate Covered(pts: map<Key, Pte>, pds: map<nat, set<nat>>) {
    forall k :: k in pts ==> k.0 in pds && PDX(k.1) in pds[k.0]
  }

  lemma CoveredEmpty(pts: map<Key, Pte>, pds: map<nat, set<nat>>, c: nat)
    requires Covered(pts, pds) && c !in pds
    ensures Covered(pts, pds[c := {}]) && forall i :: (c, i) !in pts
  {
  }

  lemma ShareNone(v: Vm, p: nat, c: nat)
    ensures ShareUpTo(v, p, c, 0) == v
  {
  }

  /** The loop of cow_shareuvm finds its next page mapped. */
  lemma ShareNext(v: Vm, p: nat, c: nat, i: nat)
    requires Entries(v) && p != c && (p, i) in v.pts
    requires forall n :: 0 <= n < i ==> (p, n) in v.pts && (c, n) !in v.pts
    ensures var w := ShareUpTo(v, p, c, i);
            (p, i) in w.pts && w.pts[(p, i)].ppn in w.count && ShareUpTo(v, p, c, i + 1) == Share(w, (p, i), (c, i))
  {
    hide Entries, Cells, Share, CopyCells;
    ShareAll(v, p, c, i);
    MappedCount(ShareUpTo(v, p, c, i), (p, i));
  }

  lemma CoveredMore(pts: map<Key, Pte>, pds: map<nat, set<nat>>, pts': map<Key, Pte>, k: Key)
    requires Covered(pts, pds) && k.0 in pds && forall y :: y in pts' <==> y in pts || y == k
    ensures Covered(pts', pds[k.0 := pds[k.0] + {PDX(k.1)}])
  {
  }

  class VmSystem {
    var pts: map<Key, Pte>
    var pds: map<nat, set<nat>>
    var sz: map<nat, nat>
    var mem: map<nat, Page>
    var counters: map<nat, int>
    var freelist: seq<nat>

    ghost function View(): Vm
      reads this
    {
      Vm(pts, sz, mem, counters, freelist)
    }

    /** Counters and pool are right, and every mapped page has a page table. */
    ghost predicate Valid()
      reads this
    {
      Entries(View()) && Covered(pts, pds)
    }

    /** kinit1: no process yet, and exactly the whole pages of the range in the pool. */
    constructor (vstart: nat, vend: nat)
      ensures Valid() && pts == map[] && pds == map[] && sz == map[]
      ensures forall p :: p in freelist <==> Pages(vstart) <= p < vend / PGSIZE
    {
      pts, pds, sz, mem, counters, freelist := map[], map[], map[], map[], map[], [];
      new;
      Freerange(vstart, vend);
    }

    /** kalloc: the head of the free list, or failure when it is empty. */
    method Kalloc() returns (ok: bool, p: nat)
      modifies this`freelist
      ensures ok <==> old(freelist) != []
      ensures ok ==> old(freelist) == [p] + freelist
      ensures !ok ==> freelist == old(freelist)
    {
      if freelist == [] {
        return false, 0;
      }
      p := freelist[0];
      freelist := freelist[1..];
      ok := true;
    }

    /** kfree: filled with junk and put at the head of the free list. */
    method Kfree(p: nat)
      modifies this`freelist, this`mem
      ensures freelist == [p] + old(freelist) && mem == old(mem)[p := JunkPage()]
      ensures forall i :: 0 <= i < PGSIZE ==> mem[p][i] == 1
    {
      mem := mem[p := JunkPage()];
      freelist := [p] + freelist;
    }

    /** freerange: the whole pages between two addresses join the pool, each once. */
    method Freerange(vstart: nat, vend: nat)
      requires Valid()
      requires forall p :: Pages(vstart) <= p < vend / PGSIZE ==> p !in freelist && p !in MappedPages(pts)
      modifies this`freelist, this`mem, this`counters
      ensures Valid() && pts == old(pts)
      ensures forall p :: p in freelist <==> p in old(freelist) || Pages(vstart) <= p < vend / PGSIZE
    {
      var p := Pages(vstart);
      while (p + 1) * PGSIZE <= vend
        invariant Pages(vstart) <= p && (p * PGSIZE <= vend || p == Pages(vstart))
        invariant Valid() && pts == old(pts)
        invariant forall x :: x in freelist <==> x in old(freelist) || (Pages(vstart) <= x < p && x < vend / PGSIZE)
        decreases vend - p * PGSIZE
      {
        ghost var v := View();
        counters := if p in counters then counters else counters[p := 0];
        Kfree(p);
        AddFree(v, View(), p);
        p := p + 1;
      }
    }

    /** deallocuvm: the plain walk, which frees what it unmaps. */
    method DeallocUvm(p: nat, oldsz: nat, newsz: nat) returns (r: nat)
      requires p in pds && newsz <= KERNBASE && oldsz <= KERNBASE
      modifies this`pts, this`mem, this`freelist
      ensures r == if newsz >= oldsz then oldsz else newsz
      ensures View() == if newsz >= oldsz then old(View()) else PlainDrop(old(View()), p, pds[p], Pages(newsz), Pages(oldsz))
    {
      if newsz >= oldsz {
        return oldsz;
      }
      var a := Pages(newsz);
      while a * PGSIZE < oldsz
        invariant a >= 0
        invariant PlainDrop(View(), p, pds[p], a, Pages(oldsz)) == PlainDrop(old(View()), p, pds[p], Pages(newsz), Pages(oldsz))
        decreases if a < Pages(oldsz) then Pages(oldsz) - a else 0
      {
        PageBound(a, oldsz);
        if PDX(a) !in pds[p] {
          a := a + (NPTENTRIES - 1);
        } else if (p, a) in pts {
          ghost var v := View();
          var pa := pts[(p, a)].ppn;
          Kfree(pa);
          pts := pts - {(p, a)};
          assert View() == PlainUnmap(v, (p, a));
        }
        a := a + 1;
      }
      PageBound(a, oldsz);
      return newsz;
    }

    /** The body of cow_deallocuvm for a present entry. */
    method UnmapCounted(k: Key)
      requires k in pts && pts[k].ppn in counters
      modifies this`pts, this`mem, this`counters, this`freelist
      ensures View() == CowUnmap(old(View()), k)
    {
      var pa := pts[k].ppn;
      counters := counters[pa := counters[pa] - 1];
      if counters[pa] == 0 {
        Kfree(pa);
      }
      pts := pts - {k};
    }

    /** cow_deallocuvm: the counted walk; a page is freed with its last mapping. */
    method CowDeallocUvm(p: nat, oldsz: nat, newsz: nat) returns (r: nat)
      requires Valid() && p in pds && newsz <= KERNBASE && oldsz <= KERNBASE
      modifies this`pts, this`mem, this`counters, this`freelist
      ensures Valid()
      ensures r == if newsz >= oldsz then oldsz else newsz
      ensures View() == if newsz >= oldsz then old(View()) else CowDrop(old(View()), p, pds[p], Pages(newsz), Pages(oldsz))
    {
      if newsz >= oldsz {
        return oldsz;
      }
      hide Entries;
      var a := Pages(newsz);
      while a * PGSIZE < oldsz
        invariant a >= 0 && Entries(View()) && pts.Keys <= old(pts).Keys
        invariant CowDrop(View(), p, pds[p], a, Pages(oldsz)) == CowDrop(old(View()), p, pds[p], Pages(newsz), Pages(oldsz))
        decreases if a < Pages(oldsz) then Pages(oldsz) - a else 0
      {
        PageBound(a, oldsz);
        if PDX(a) !in pds[p] {
          a := a + (NPTENTRIES - 1);
        } else if (p, a) in pts {
          MappedCount(View(), (p, a));
          CowUnmapEntries(View(), (p, a));
          UnmapCounted((p, a));
        }
        a := a + 1;
      }
      PageBound(a, oldsz);
      return newsz;
    }

    /** cow_freevm on the user part: nothing of process p stays mapped, everything else stays as it was. */
    method CowFreeVm(p: nat)
      requires Valid() && p in pds && forall x: nat :: (p, x) in pts ==> x < KERNBASE / PGSIZE
      modifies this`pts, this`mem, this`counters, this`freelist, this`pds
      ensures Valid() && sz == old(sz) && p !in pds
      ensures Cells(View()) == map k | k in old(Cells(View())) && k.0 != p :: old(Cells(View()))[k]
    {
      ghost var v := View();
      var r := CowDeallocUvm(p, KERNBASE, 0);
      CowDropAll(v, p, pds[p], 0, KERNBASE / PGSIZE);
      DropWhole(v, View(), p, pds[p]);
      pds := pds - {p};
    }

    /** The body of cow_shareuvm for one page, with inc_counter. */
    method ShareEntry(k: Key, c: Key)
      requires k in pts && pts[k].ppn in counters
      modifies this`pts, this`counters
      ensures View() == Share(old(View()), k, c)
      ensures forall y :: y in pts <==> y in old(pts) || y == c
    {
      var e := pts[k].(sh := true);
      e := e.(w := false);
      pts := pts[k := e];
      pts := pts[c := e];
      counters := counters[e.ppn := if counters[e.ppn] == 0 then 2 else counters[e.ppn] + 1];
    }

    /** cow_shareuvm: the child maps the parent's pages, both without PTE_W. */
    method CowShareUvm(p: nat, c: nat, size: nat)
      requires Valid() && p in pds && c !in pds && size <= KERNBASE
      requires forall i :: 0 <= i < Pages(size) ==> (p, i) in pts
      modifies this`pts, this`counters, this`pds
      ensures Valid() && View() == ShareUpTo(old(View()), p, c, Pages(size))
      ensures Cells(View()) == CopyCells(old(Cells(View())), p, c, Pages(size))
      ensures freelist == old(freelist) && mem == old(mem)
    {
      hide Entries, Cells, Share, ShareUpTo, Covered, Pages, CopyCells;
      ghost var v := View();
      CoveredEmpty(pts, pds, c);
      ShareNone(v, p, c);
      pds := pds[c := {}];
      var i := 0;
      while i * PGSIZE < size
        invariant 0 <= i <= Pages(size) && p in pds && c in pds
        invariant View() == ShareUpTo(v, p, c, i)
        invariant Covered(pts, pds)
      {
        PageBound(i, size);
        ShareNext(v, p, c, i);
        ghost var was, tables := pts, pds;
        pds := pds[c := pds[c] + {PDX(i)}];
        ShareEntry((p, i), (c, i));
        CoveredMore(was, tables, pts, (c, i));
        i := i + 1;
      }
      PageBound(i, size);
      ShareAll(v, p, c, i);
    }

    /** The entry gets a private copy of its page, or keeps the page when it is the last one using it. */
    method MakePrivate(k: Key) returns (ok: bool)
      requires k in pts && pts[k].sh && pts[k].ppn in counters && pts[k].ppn in mem && pts[k].ppn !in freelist
      modifies this`pts, this`mem, this`counters, this`freelist
      ensures ok == Fault(old(View()), k, true).Some?
      ensures View() == if ok then Fault(old(View()), k, true).value else old(View())
    {
      var pa := pts[k].ppn;
      ghost var was := pts;
      if counters[pa] > 1 {
        var got, x := Kalloc();
        if !got {
          return false;
        }
        mem := mem[x := mem[pa]];
        counters := counters[x := 1];
        pts := pts[k := Pte(x, pts[k].w, pts[k].u, pts[k].sh)];
        pts := pts[k := pts[k].(sh := false)];
        pts := pts[k := pts[k].(w := true)];
        counters := counters[pa := counters[pa] - 1];
        assert pts == was[k := Pte(x, true, was[k].u, false)];
        assert x == old(freelist)[0] && freelist == old(freelist)[1..];
      } else {
        pts := pts[k := pts[k].(sh := false)];
        pts := pts[k := pts[k].(w := true)];
        assert pts == was[k := was[k].(w := true, sh := false)];
      }
      return true;
    }

    /** cow_copyuvm for a fault at va. */
    method CowCopyUvm(p: nat, va: nat) returns (ok: bool)
      requires Valid() && p in sz
      modifies this`pts, this`mem, this`counters, this`freelist
      ensures Valid()
      ensures ok == Fault(old(View()), (p, va / PGSIZE), va < sz[p]).Some?
      ensures View() == if ok then Fault(old(View()), (p, va / PGSIZE), va < sz[p]).value else old(View())
      ensures Cells(View()) == old(Cells(View()))
    {
      hide Entries, Cells;
      var k := (p, va / PGSIZE);
      if k !in pts || !pts[k].sh || va >= sz[p] {
        return false;
      }
      ghost var v := View();
      MappedCount(v, k);
      FaultDone(v, k);
      ok := MakePrivate(k);
      assert forall y :: y in pts <==> y in v.pts.Keys;
    }

    /** kalloc, fill, mappages and counter 1: a fresh page at k; false when the pool is empty. */
    method MapNew(k: Key, page: Page, u: bool, sh: bool) returns (ok: bool)
      requires k.0 in pds
      modifies this`pts, this`pds, this`mem, this`counters, this`freelist
      ensures ok == (old(freelist) != [])
      ensures !ok ==> View() == old(View()) && pds == old(pds)
      ensures ok ==> View() == MapFresh(Popped(old(View())), k, old(freelist)[0], page, u, sh)
      ensures ok ==> pds == old(pds)[k.0 := old(pds)[k.0] + {PDX(k.1)}]
    {
      var x;
      ok, x := Kalloc();
      if !ok {
        return;
      }
      mem := mem[x := page];
      pds := pds[k.0 := pds[k.0] + {PDX(k.1)}];
      pts := pts[k := Pte(x, !sh, u, sh)];
      counters := counters[x := 1];
      assert x == old(freelist)[0] && freelist == old(freelist)[1..];
    }

    /**
     allocuvm: zeroed pages from oldsz up to newsz, or, when the pool runs out,
     everything as it was and result 0.
     */
    method AllocUvm(p: nat, oldsz: nat, newsz: nat) returns (r: nat)
      requires Valid() && p in pds
      requires forall x: nat :: Pages(oldsz) <= x ==> (p, x) !in pts
      modifies this
      ensures Valid() && sz == old(sz)
      ensures newsz >= KERNBASE ==> r == 0 && View() == old(View())
      ensures newsz < KERNBASE && newsz < oldsz ==> r == oldsz && View() == old(View())
      ensures oldsz <= newsz < KERNBASE ==>
                if Pages(newsz) - Pages(oldsz) <= |old(freelist)|
                then
                  && r == newsz && Cells(View()) == ZeroCells(old(Cells(View())), p, Pages(oldsz), Pages(newsz))
                  && |freelist| == |old(freelist)| - (Pages(newsz) - Pages(oldsz)) && Pool(View()) == Pool(old(View()))
                else r == 0 && Cells(View()) == old(Cells(View())) && Undone(old(View()), View())
    {
      hide Entries, Cells, Pages, ZeroCells, Fresh, Growing, Covered, PlainDrop, MapFresh, Popped, Pool, Undone;
      if newsz >= KERNBASE {
        return 0;
      }
      if newsz < oldsz {
        return oldsz;
      }
      PagesMonotone(oldsz, newsz);
      ghost var lo := Pages(oldsz);
      ghost var v := View();
      GrowNone(v, p, lo);
      var a := Pages(oldsz);
      while a * PGSIZE < newsz
        invariant lo <= a <= Pages(newsz) && p in pds && Covered(pts, pds)
        invariant Growing(v, View(), p, lo, a) && Entries(View())
        invariant Cells(View()) == ZeroCells(Cells(v), p, lo, a)
      {
        PageBound(a, newsz);
        ghost var w, tables := View(), pds;
        GrownSoFar(v, w, p, lo, a);
        var ok := MapNew((p, a), ZeroPage(), true, false);
        if !ok {
          var d := DeallocUvm(p, newsz, oldsz);
          UndoGrow(v, w, View(), p, pds, lo, a, Pages(newsz));
          return 0;
        }
        GrowOne(v, w, p, tables, lo, a, ZeroPage(), true, false);
        ZeroNext(Cells(v), p, lo, a);
        a := a + 1;
      }
      PageBound(a, newsz);
      GrownSoFar(v, View(), p, lo, a);
      return newsz;
    }

    /** freevm on the user part: the plain walk over the whole address space. */
    method FreeVm(p: nat)
      requires p in pds
      modifies this`pts, this`mem, this`freelist, this`pds
      ensures View() == PlainDrop(old(View()), p, old(pds)[p], 0, Pages(KERNBASE)) && pds == old(pds) - {p}
    {
      hide PlainDrop;
      var r := DeallocUvm(p, KERNBASE, 0);
      pds := pds - {p};
    }

    /**
     copyuvm: the child gets its own copy of every page of the parent, with
     the same flags, or, when the pool runs out, no pages at all.
     */
    method CopyUvm(p: nat, c: nat, size: nat) returns (ok: bool)
      requires Valid() && p in pds && c !in pds && size <= KERNBASE
      requires forall i :: 0 <= i < Pages(size) ==> (p, i) in pts
      modifies this`pts, this`pds, this`mem, this`counters, this`freelist
      ensures Valid() && p in pds && (c in pds <==> ok)
      ensures ok == (Pages(size) <= |old(freelist)|)
      ensures Cells(View()) == if ok then CopyCells(old(Cells(View())), p, c, Pages(size)) else old(Cells(View()))
    {
      hide Entries, Cells, Pages, Copying, PlainDrop, MapFresh, Popped, CopyCells, Covered;
      ghost var v := View();
      CopyStart(v, p, c, pds);
      pds := pds[c := {}];
      var i := 0;
      while i * PGSIZE < size
        invariant 0 <= i <= Pages(size) && Copying(v, View(), p, c, pds, i)
      {
        PageBound(i, size);
        ghost var w, tables := View(), pds;
        CopySource(v, w, p, c, pds, i);
        var e := pts[(p, i)];
        ok := MapNew((c, i), mem[e.ppn], e.u, e.sh);
        if !ok {
          FreeVm(c);
          KernPages(size);
          UndoCopy(v, w, View(), p, c, tables, i);
          return;
        }
        CopyOne(v, w, p, c, tables, i);
        i := i + 1;
      }
      PageBound(i, size);
      CopyDone(v, View(), p, c, pds, i);
      ok := true;
    }
  }

  /** Pages lo .. a-1 of process p are mapped with counter 1. */
  ghost predicate Fresh(v: Vm, p: nat, lo: nat, a: nat) {
    forall x :: lo <= x < a ==> (p, x) in v.pts && v.pts[(p, x)].ppn in v.count && v.count[v.pts[(p, x)].ppn] == 1
  }

  ghost predicate Keeps(a: map<Key, Cell>, b: map<Key, Cell>) {
    forall k :: k in a ==> k in b && b[k] == a[k]
  }

  /** w is v with fresh pages lo .. a-1 of process p. */
  ghost predicate Growing(v: Vm, w: Vm, p: nat, lo: nat, a: nat) {
    && lo <= a && Entries(v) && Entries(w) && w.sz == v.sz && |w.free| + a - lo == |v.free|
    && Keeps(Cells(v), Cells(w)) && Fresh(w, p, lo, a) && Pool(w) == Pool(v) && SameEntries(v, w)
    && forall y :: y in w.pts <==> y in v.pts || (y.0 == p && lo <= y.1 < a)
  }

  ghost predicate SameEntries(v: Vm, w: Vm) {
    forall y :: y in v.pts ==> y in w.pts && w.pts[y] == v.pts[y]
  }

  /** The page tables are the old ones, and so is the set of free pages. */
  ghost predicate Undone(v: Vm, z: Vm) {
    z.pts == v.pts && forall x :: x in z.free <==> x in v.free
  }

  lemma UndoneBy(v: Vm, w: Vm, z: Vm)
    requires Entries(v) && Entries(z) && SameEntries(v, w) && SameEntries(z, w) && z.pts.Keys == v.pts.Keys && Pool(z) == Pool(v)
    ensures Undone(v, z)
  {
    forall y | y in v.pts
      ensures y in z.pts && z.pts[y] == v.pts[y]
    {
      assert y in z.pts.Keys;
    }
    assert z.pts == v.pts;
    assert forall x :: x in z.free ==> x in Pool(z);
    assert forall x :: x in v.free ==> x in Pool(v);
    FreeUnmapped(v);
    FreeUnmapped(z);
  }

  lemma FreeUnmapped(v: Vm)
    requires Entries(v)
    ensures forall x :: x in v.free ==> x !in MappedPages(v.pts)
  {
    forall k | k in v.pts
      ensures v.pts[k].ppn !in v.free
    {
      assert EntryOk(v, k);
    }
  }

  lemma {:induction false} DropEntries(v: Vm, p: nat, pds: set<nat>, a: nat, hi: nat)
    ensures SameEntries(PlainDrop(v, p, pds, a, hi), v)
    decreases if a < hi then hi - a else 0
  {
    if a < hi {
      if PDX(a) !in pds {
        DropEntries(v, p, pds, a + NPTENTRIES, hi);
      } else {
        DropEntries(if (p, a) in v.pts then PlainUnmap(v, (p, a)) else v, p, pds, a + 1, hi);
      }
    }
  }

  lemma GrowNone(v: Vm, p: nat, lo: nat)
    requires Entries(v)
    ensures Growing(v, v, p, lo, lo) && ZeroCells(Cells(v), p, lo, lo) == Cells(v)
  {
  }

  lemma GrownSoFar(v: Vm, w: Vm, p: nat, lo: nat, a: nat)
    requires Growing(v, w, p, lo, a)
    ensures Entries(w) && w.sz == v.sz && |w.free| + a - lo == |v.free| && Keeps(Cells(v), Cells(w)) && Pool(w) == Pool(v)
    ensures forall y :: y in v.pts ==> y in w.pts
  {
  }

  lemma FreshMapped(v: Vm, k: Key, page: Page, u: bool, sh: bool)
    requires Entries(v) && k !in v.pts && v.free != []
    ensures var w := MapFresh(Popped(v), k, v.free[0], page, u, sh);
            && Entries(w) && Cells(w) == Cells(v)[k := Cell(page, u)] && w.sz == v.sz && |w.free| == |v.free| - 1
            && (forall y :: y in w.pts <==> y in v.pts || y == k)
            && w.pts[k].ppn in w.count && w.count[w.pts[k].ppn] == 1
            && forall y :: y in v.pts ==>
                 && w.pts[y] == v.pts[y] && v.pts[y].ppn in v.count && v.pts[y].ppn in w.count
                 && w.count[v.pts[y].ppn] == v.count[v.pts[y].ppn]
  {
    MapFreshCells(v, k, page, u, sh);
    hide Entries, Cells;
    forall y | y in v.pts
      ensures v.pts[y].ppn != v.free[0] && v.pts[y].ppn in v.count
    {
      MappedCount(v, y);
    }
  }

  lemma FreshMore(v: Vm, w: Vm, p: nat, lo: nat, a: nat)
    requires Fresh(v, p, lo, a) && (p, a) in w.pts && w.pts[(p, a)].ppn in w.count && w.count[w.pts[(p, a)].ppn] == 1
    requires forall y :: y in v.pts ==> y in w.pts && w.pts[y] == v.pts[y]
    requires forall y :: y in v.pts ==> v.pts[y].ppn in v.count && v.pts[y].ppn in w.count && w.count[v.pts[y].ppn] == v.count[v.pts[y].ppn]
    ensures Fresh(w, p, lo, a + 1)
  {
  }

  lemma CoverOne(v: Vm, w: Vm, p: nat, pds: map<nat, set<nat>>, a: nat)
    requires Covered(v.pts, pds) && p in pds && forall y :: y in w.pts <==> y in v.pts || y == (p, a)
    ensures Covered(w.pts, pds[p := pds[p] + {PDX(a)}])
  {
  }

  lemma KeysOne(v: Vm, w: Vm, z: Vm, p: nat, lo: nat, a: nat)
    requires forall y :: y in w.pts <==> y in v.pts || (y.0 == p && lo <= y.1 < a)
    requires lo <= a && forall y :: y in z.pts <==> y in w.pts || y == (p, a)
    ensures forall y :: y in z.pts <==> y in v.pts || (y.0 == p && lo <= y.1 < a + 1)
  {
  }

  lemma GrowOne(v: Vm, w: Vm, p: nat, pds: map<nat, set<nat>>, lo: nat, a: nat, page: Page, u: bool, sh: bool)
    requires Growing(v, w, p, lo, a) && (p, a) !in v.pts && w.free != []
    requires Covered(w.pts, pds) && p in pds
    ensures var z := MapFresh(Popped(w), (p, a), w.free[0], page, u, sh);
            && Growing(v, z, p, lo, a + 1) && Entries(z) && Cells(z) == Cells(w)[(p, a) := Cell(page, u)]
            && Covered(z.pts, pds[p := pds[p] + {PDX(a)}])
  {
    hide Entries, Cells, Fresh, MapFresh, Popped, Covered, Pool;
    FreshMapped(w, (p, a), page, u, sh);
    MapFreshPool(w, (p, a), page, u, sh);
    var z := MapFresh(Popped(w), (p, a), w.free[0], page, u, sh);
    CellAt(v, (p, a));
    FreshMore(w, z, p, lo, a);
    KeysOne(v, w, z, p, lo, a);
    CoverOne(w, z, p, pds, a);
  }

  lemma FreshUnshared(v: Vm, p: nat, lo: nat, a: nat, hi: nat)
    requires Entries(v) && Fresh(v, p, lo, a)
    requires forall x: nat :: (p, x) in v.pts && lo <= x ==> x < a
    ensures Unshared(v, p, lo, hi)
  {
    forall x | lo <= x < hi && (p, x) in v.pts
      ensures Mappers(v.pts, v.pts[(p, x)].ppn) == {(p, x)}
    {
      SoleMapper(v, (p, x));
    }
  }

  lemma PagesMonotone(x: nat, y: nat)
    requires x <= y
    ensures Pages(x) <= Pages(y)
  {
  }

  /** A walk over pages that are contiguous from its start reaches them all. */
  lemma RunVisited(pds: set<nat>, lo: nat, a: nat, hi: nat, x: nat)
    requires lo <= x < a <= hi && forall y :: lo <= y < a ==> PDX(y) in pds
    ensures x in Visited(pds, lo, hi)
  {
    VisitedExactly(pds, lo, hi, x);
    assert PDX(lo) in pds;
    assert PDX(x) > PDX(lo) ==> TableBefore(pds, lo, x);
  }

  /** The failure path of allocuvm takes back exactly the pages it had added. */
  lemma UndoGrow(v: Vm, w: Vm, z: Vm, p: nat, pds: map<nat, set<nat>>, lo: nat, a: nat, hi: nat)
    requires Growing(v, w, p, lo, a) && lo <= a < hi && p in pds && Covered(w.pts, pds)
    requires forall x: nat :: lo <= x ==> (p, x) !in v.pts
    requires z == PlainDrop(w, p, pds[p], lo, hi)
    ensures Entries(z) && Cells(z) == Cells(v) && z.sz == v.sz && Covered(z.pts, pds) && Undone(v, z)
  {
    hide Entries, Visited, PlainDrop, Cells, DropCells, Fresh, Unshared, Keeps, Pool, Undone, SameEntries;
    FreshUnshared(w, p, lo, a, hi);
    PlainDropAll(w, p, pds[p], lo, hi);
    var gone := Visited(pds[p], lo, hi);
    forall x: nat
      ensures lo <= x < a ==> x in gone
      ensures x in gone ==> lo <= x
    {
      GrownVisited(w, p, pds[p], lo, a, hi, x);
    }
    UndoCells(v, w, z, p, lo, a, gone);
    PlainDropPool(w, p, pds[p], lo, hi);
    DropEntries(w, p, pds[p], lo, hi);
    UndoneBy(v, w, z);
  }

  lemma GrownVisited(w: Vm, p: nat, pds: set<nat>, lo: nat, a: nat, hi: nat, x: nat)
    requires lo <= a < hi && forall y :: lo <= y < a ==> (p, y) in w.pts
    requires forall k :: k in w.pts && k.0 == p ==> PDX(k.1) in pds
    ensures lo <= x < a ==> x in Visited(pds, lo, hi)
    ensures x in Visited(pds, lo, hi) ==> lo <= x
  {
    hide Visited;
    VisitedExactly(pds, lo, hi, x);
    if lo <= x < a {
      forall y | lo <= y < a
        ensures PDX(y) in pds
      {
        assert (p, y) in w.pts;
      }
      RunVisited(pds, lo, a, hi, x);
    }
  }

  lemma UndoCells(v: Vm, w: Vm, z: Vm, p: nat, lo: nat, a: nat, gone: set<nat>)
    requires Entries(v) && Entries(w) && Entries(z) && Keeps(Cells(v), Cells(w))
    requires forall y :: y in w.pts <==> y in v.pts || (y.0 == p && lo <= y.1 < a)
    requires Cells(z) == DropCells(Cells(w), p, gone)
    requires forall x: nat :: lo <= x ==> (p, x) !in v.pts
    requires forall x: nat :: (lo <= x < a ==> x in gone) && (x in gone ==> lo <= x)
    ensures Cells(z) == Cells(v) && z.pts.Keys == v.pts.Keys
    ensures forall k :: k in z.pts ==> k in w.pts
  {
    hide Entries, Cells;
    forall k
      ensures k in Cells(z) <==> k in Cells(v)
      ensures k in Cells(v) ==> Cells(z)[k] == Cells(v)[k]
      ensures k in z.pts.Keys <==> k in v.pts.Keys
    {
      CellAt(v, k);
      CellAt(w, k);
      CellAt(z, k);
      assert k == (k.0, k.1);
    }
    forall k | k in z.pts
      ensures k in w.pts
    {
      CellAt(w, k);
      CellAt(z, k);
    }
  }

  lemma CopyNext(cells: map<Key, Cell>, p: nat, c: nat, n: nat)
    ensures CopyCells(cells, p, c, 0) == cells
    ensures (p, n) in cells ==> CopyCells(cells, p, c, n + 1) == CopyCells(cells, p, c, n)[(c, n) := cells[(p, n)]]
  {
  }

  /** The loop of copyuvm after i pages. */
  ghost predicate Copying(v: Vm, w: Vm, p: nat, c: nat, pds: map<nat, set<nat>>, i: nat) {
    && Growing(v, w, c, 0, i) && Covered(w.pts, pds) && p in pds && c in pds
    && Cells(w) == CopyCells(Cells(v), p, c, i)
    && forall x: nat :: (c, x) !in v.pts
  }

  lemma CopyStart(v: Vm, p: nat, c: nat, pds: map<nat, set<nat>>)
    requires Entries(v) && Covered(v.pts, pds) && p in pds && c !in pds
    ensures Copying(v, v, p, c, pds[c := {}], 0)
  {
    hide Entries, Cells, Growing;
    GrowNone(v, c, 0);
    GrownSoFar(v, v, c, 0, 0);
    forall x: nat
      ensures (c, x) !in v.pts
    {
      assert (c, x) in v.pts ==> (c, x).0 in pds;
    }
  }

  lemma CopyDone(v: Vm, w: Vm, p: nat, c: nat, pds: map<nat, set<nat>>, i: nat)
    requires Copying(v, w, p, c, pds, i)
    ensures Entries(v) && Entries(w) && Cells(w) == CopyCells(Cells(v), p, c, i)
    ensures |w.free| + i == |v.free| && Covered(w.pts, pds) && p in pds && c in pds
  {
  }

  /** The parent's page i, still there while the child grows. */
  lemma CopySource(v: Vm, w: Vm, p: nat, c: nat, pds: map<nat, set<nat>>, i: nat)
    requires Copying(v, w, p, c, pds, i) && (p, i) in v.pts
    ensures (p, i) in w.pts && w.pts[(p, i)].ppn in w.mem && |w.free| + i == |v.free| && c in pds
    ensures Entries(v) && (p, i) in Cells(v) && Cells(v)[(p, i)] == Cell(w.mem[w.pts[(p, i)].ppn], w.pts[(p, i)].u)
  {
    hide Entries, Cells, Fresh, Covered, CopyCells;
    CellAt(v, (p, i));
    CellAt(w, (p, i));
  }

  /** One page of copyuvm. */
  lemma CopyOne(v: Vm, w: Vm, p: nat, c: nat, pds: map<nat, set<nat>>, i: nat)
    requires Copying(v, w, p, c, pds, i) && (p, i) in v.pts && w.free != []
    ensures (p, i) in w.pts && w.pts[(p, i)].ppn in w.mem && c in pds
    ensures var e := w.pts[(p, i)];
            var z := MapFresh(Popped(w), (c, i), w.free[0], w.mem[e.ppn], e.u, e.sh);
            Copying(v, z, p, c, pds[c := pds[c] + {PDX(i)}], i + 1)
  {
    CopyDone(v, w, p, c, pds, i);
    CopySource(v, w, p, c, pds, i);
    hide Entries, Cells, Fresh, MapFresh, Popped, Covered, CopyCells, Growing;
    var e := w.pts[(p, i)];
    GrowOne(v, w, c, pds, 0, i, w.mem[e.ppn], e.u, e.sh);
    CopyNext(Cells(v), p, c, i);
  }

  /** The failure path of copyuvm. */
  lemma UndoCopy(v: Vm, w: Vm, z: Vm, p: nat, c: nat, pds: map<nat, set<nat>>, i: nat)
    requires Copying(v, w, p, c, pds, i) && i < Pages(KERNBASE) && p != c
    requires c in pds ==> z == PlainDrop(w, c, pds[c], 0, Pages(KERNBASE))
    ensures Entries(v) && Entries(z) && Cells(z) == Cells(v) && Covered(z.pts, pds - {c}) && p in pds - {c}
  {
    hide Entries, Cells, Fresh, Covered, PlainDrop, Pages;
    UndoGrow(v, w, z, c, pds, 0, i, Pages(KERNBASE));
    CoverLess(z, v, pds, c);
  }

  lemma KernPages(size: nat)
    requires size <= KERNBASE
    ensures Pages(0) == 0 && Pages(size) <= Pages(KERNBASE)
  {
  }

  lemma CoverLess(z: Vm, v: Vm, pds: map<nat, set<nat>>, c: nat)
    requires Entries(z) && Entries(v) && Cells(z) == Cells(v) && Covered(z.pts, pds)
    requires forall x: nat :: (c, x) !in v.pts
    ensures Covered(z.pts, pds - {c})
  {
    forall k | k in z.pts
      ensures k.0 != c
    {
      CellAt(z, k);
      CellAt(v, k);
      assert k == (k.0, k.1);
    }
  }

  /** The loop test on addresses and on page numbers. */
  lemma PageBound(a: nat, size: nat)
    ensures a * PGSIZE < size <==> a < Pages(size)
  {
  }

  lemma FaultDone(v: Vm, k: Key)
    requires Entries(v)
    ensures Fault(v, k, true).Some? ==> Entries(Fault(v, k, true).value) && Cells(Fault(v, k, true).value) == Cells(v)
    ensures Fault(v, k, true).Some? ==> Fault(v, k, true).value.pts.Keys == v.pts.Keys
  {
    FaultCorrect(v, k, true);
    if Fault(v, k, true).Some? {
      FaultCells(v, k, true);
    }
  }

  lemma AddFree(v: Vm, w: Vm, p: nat)
    requires Entries(v) && p !in v.free && p !in MappedPages(v.pts)
    requires w.pts == v.pts && w.mem == v.mem[p := JunkPage()] && w.free == [p] + v.free
    requires w.count == if p in v.count then v.count else v.count[p := 0]
    ensures Entries(w)
  {
    FreeCons(p, v.free);
    forall k | k in w.pts
      ensures EntryOk(w, k)
    {
      assert EntryOk(v, k);
    }
  }
}
