/**
 Copy-on-write address spaces (vm.c, kalloc.c): page tables, reference
 counters and the free-page pool, on values.
 */
module Cow {
  import opened Blocks
  import opened Collections
  import opened PageWalk

  type Page = s: seq<Byte> | |s| == PGSIZE witness seq(PGSIZE, _ => 0)

  /** A present page table entry: physical page, PTE_W, PTE_U and PTE_SH. */
  datatype Pte = Pte(ppn: nat, w: bool, u: bool, sh: bool)

  /** A process and one of its page numbers. */
  type Key = (nat, nat)

  /**
   All address spaces together: entries by process and page number, process
   sizes, physical memory, page_counters and the free list.
   */
  datatype Vm = Vm(pts: map<Key, Pte>, sz: map<nat, nat>, mem: map<nat, Page>, count: map<nat, int>, free: seq<nat>)

  function ZeroPage(): Page {
    seq(PGSIZE, _ => 0)
  }

  /** What kfree fills a page with. */
  function JunkPage(): Page {
    seq(PGSIZE, _ => 1)
  }

  // ---------- Counting the mappings of a page ----------

  ghost function Mappers(pts: map<Key, Pte>, p: nat): set<Key> {
    set k | k in pts && pts[k].ppn == p
  }

  ghost function MappedPages(pts: map<Key, Pte>): set<nat> {
    set k | k in pts :: pts[k].ppn
  }

  /** The entry is writable exactly when it is not shared, and then it is the only mapping of its page. */
  ghost predicate EntryOk(v: Vm, k: Key)
    requires k in v.pts
  {
    var e := v.pts[k];
    && e.ppn in v.mem && e.ppn in v.count && e.ppn !in v.free
    && v.count[e.ppn] == |Mappers(v.pts, e.ppn)|
    && (e.w <==> !e.sh)
    && (e.w ==> v.count[e.ppn] == 1)
  }

  const KERNBASE: nat := 0x8000_0000

  /** A process maps exactly the pages below its size, which ends below the kernel. */
  ghost predicate SizesOk(v: Vm) {
    && (forall p :: p in v.sz ==> v.sz[p] <= KERNBASE)
    && (forall k :: k in v.pts ==> k.0 in v.sz && k.1 < Pages(v.sz[k.0]))
    && forall p, n: nat :: p in v.sz && n < Pages(v.sz[p]) ==> (p, n) in v.pts
  }

  /**
   page_counters is the number of mappings of every mapped page; free pages
   are mapped by nobody; PTE_W means sole owner.
   */
  ghost predicate Entries(v: Vm) {
    && (forall k :: k in v.pts ==> EntryOk(v, k))
    && Distinct(v.free)
    && forall p :: p in v.free ==> p in v.mem && p in v.count
  }

  ghost predicate Inv(v: Vm) {
    Entries(v) && SizesOk(v)
  }

  /** The pages in use or free: no step of a run loses one or invents one (CowRefinement.RunKeepsPool). */
  ghost function Pool(v: Vm): set<nat> {
    (set p | p in v.free) + MappedPages(v.pts)
  }

  lemma MappersAdd(pts: map<Key, Pte>, k: Key, e: Pte, p: nat)
    requires k !in pts
    ensures Mappers(pts[k := e], p) == if e.ppn == p then Mappers(pts, p) + {k} else Mappers(pts, p)
  {
    var a, b := Mappers(pts[k := e], p), Mappers(pts, p);
    assert forall x :: x in a <==> x in b || (x == k && e.ppn == p);
  }

  lemma MappersRemove(pts: map<Key, Pte>, k: Key, p: nat)
    requires k in pts
    ensures Mappers(pts - {k}, p) == Mappers(pts, p) - {k}
  {
  }

  lemma MappersSame(pts: map<Key, Pte>, k: Key, e: Pte, p: nat)
    requires k in pts && e.ppn == pts[k].ppn
    ensures Mappers(pts[k := e], p) == Mappers(pts, p)
  {
    var a, b := Mappers(pts[k := e], p), Mappers(pts, p);
    assert forall x :: x in a <==> x in b;
  }

  /** A page with one mapping has no other. */
  lemma OnlyMapper(pts: map<Key, Pte>, k: Key, x: Key)
    requires k in pts && x in pts && pts[x].ppn == pts[k].ppn && |Mappers(pts, pts[k].ppn)| == 1
    ensures x == k
  {
    var m := Mappers(pts, pts[k].ppn);
    if x != k {
      assert {x, k} <= m && |{x, k}| == 2;
      SubsetSize({x, k}, m);
    }
  }

  // ---------- Single-page operations ----------

  /** kalloc takes the head of the free list. */
  function Popped(v: Vm): Vm
    requires v.free != []
  {
    v.(free := v.free[1..])
  }

  /** Map page x, just taken from the pool, at k with its counter at 1. */
  function MapFresh(v: Vm, k: Key, x: nat, page: Page, u: bool, sh: bool): Vm {
    v.(pts := v.pts[k := Pte(x, !sh, u, sh)], mem := v.mem[x := page], count := v.count[x := 1])
  }

  /** inc_counter. */
  function Inc(c: int): int {
    if c == 0 then 2 else c + 1
  }

  /** One page of cow_shareuvm: the parent's entry loses PTE_W, the child's is the same, the counter grows. */
  function Share(v: Vm, k: Key, c: Key): Vm
    requires k in v.pts && v.pts[k].ppn in v.count
  {
    var e := v.pts[k].(w := false, sh := true);
    v.(pts := v.pts[k := e][c := e], count := v.count[e.ppn := Inc(v.count[e.ppn])])
  }

  /** One page of cow_deallocuvm: freed exactly when its counter reaches 0. */
  function CowUnmap(v: Vm, k: Key): Vm
    requires k in v.pts && v.pts[k].ppn in v.count
  {
    var p := v.pts[k].ppn;
    var c := v.count[p] - 1;
    var v' := v.(pts := v.pts - {k}, count := v.count[p := c]);
    if c == 0 then v'.(mem := v.mem[p := JunkPage()], free := [p] + v.free) else v'
  }

  /** One page of deallocuvm: freed without a look at the counter. */
  function PlainUnmap(v: Vm, k: Key): Vm
    requires k in v.pts
  {
    var p := v.pts[k].ppn;
    v.(pts := v.pts - {k}, mem := v.mem[p := JunkPage()], free := [p] + v.free)
  }

  // ---------- They keep the counters right ----------

  lemma FreeTail(free: seq<nat>)
    requires Distinct(free) && free != []
    ensures Distinct(free[1..]) && free[0] !in free[1..]
    ensures forall p :: p in free <==> p == free[0] || p in free[1..]
  {
    assert free == [free[0]] + free[1..];
  }

  lemma FreeCons(p: nat, free: seq<nat>)
    requires Distinct(free) && p !in free
    ensures Distinct([p] + free)
    ensures forall x :: x in [p] + free <==> x == p || x in free
  {
  }

  lemma FreeUnmapped(v: Vm, p: nat)
    requires Entries(v) && p in v.free
    ensures Mappers(v.pts, p) == {}
  {
    forall k | k in v.pts
      ensures v.pts[k].ppn != p
    {
      assert EntryOk(v, k);
    }
  }

  /** An entry survives changes to other pages. */
  lemma EntryFrame(v: Vm, v': Vm, k: Key)
    requires k in v.pts && EntryOk(v, k) && k in v'.pts && v'.pts[k] == v.pts[k]
    requires v.pts[k].ppn in v'.mem && v.pts[k].ppn in v'.count && v.pts[k].ppn !in v'.free
    requires Mappers(v'.pts, v.pts[k].ppn) == Mappers(v.pts, v.pts[k].ppn)
    requires v'.count[v.pts[k].ppn] == v.count[v.pts[k].ppn]
    ensures EntryOk(v', k)
  {
  }

  lemma MapFreshEntries(v: Vm, k: Key, page: Page, u: bool, sh: bool)
    requires Entries(v) && k !in v.pts && v.free != []
    ensures Entries(MapFresh(Popped(v), k, v.free[0], page, u, sh))
  {
    var x := v.free[0];
    var v' := MapFresh(Popped(v), k, x, page, u, sh);
    FreeTail(v.free);
    FreeUnmapped(v, x);
    forall y | y in v'.pts
      ensures EntryOk(v', y)
    {
      MappersAdd(v.pts, k, v'.pts[k], v'.pts[y].ppn);
      if y != k {
        assert EntryOk(v, y);
        assert y in Mappers(v.pts, v.pts[y].ppn);
        hide EntryOk, Mappers;
        EntryFrame(v, v', y);
      }
    }
  }

  lemma MapFreshPool(v: Vm, k: Key, page: Page, u: bool, sh: bool)
    requires Entries(v) && k !in v.pts && v.free != []
    ensures Pool(MapFresh(Popped(v), k, v.free[0], page, u, sh)) == Pool(v)
  {
    var x := v.free[0];
    var v' := MapFresh(Popped(v), k, x, page, u, sh);
    FreeTail(v.free);
    assert v'.pts[k].ppn == x;
    forall p
      ensures p in MappedPages(v'.pts) <==> p in MappedPages(v.pts) || p == x
    {
      if p in MappedPages(v.pts) {
        var y :| y in v.pts && v.pts[y].ppn == p;
        assert y in v'.pts && v'.pts[y].ppn == p;
      }
    }
  }

  /** Two entries for one page: its counter is above 1 and neither is writable. */
  lemma TwoMappers(v: Vm, k: Key, x: Key)
    requires Entries(v) && k in v.pts && x in v.pts && k != x && v.pts[x].ppn == v.pts[k].ppn
    ensures v.count[v.pts[k].ppn] >= 2 && !v.pts[x].w && !v.pts[k].w
  {
    assert EntryOk(v, k) && EntryOk(v, x);
    var m := Mappers(v.pts, v.pts[k].ppn);
    assert {x, k} <= m && |{x, k}| == 2;
    SubsetSize({x, k}, m);
  }

  lemma MappedCount(v: Vm, k: Key)
    requires Entries(v) && k in v.pts
    ensures v.pts[k].ppn in v.count && v.count[v.pts[k].ppn] >= 1 && v.pts[k].ppn in v.mem && v.pts[k].ppn !in v.free
  {
    assert EntryOk(v, k);
    assert k in Mappers(v.pts, v.pts[k].ppn);
  }

  lemma ShareEntries(v: Vm, k: Key, c: Key)
    requires Entries(v) && k in v.pts && c !in v.pts
    ensures v.pts[k].ppn in v.count && Entries(Share(v, k, c))
    ensures Share(v, k, c).count[v.pts[k].ppn] == v.count[v.pts[k].ppn] + 1
  {
    MappedCount(v, k);
    var p := v.pts[k].ppn;
    var e := v.pts[k].(w := false, sh := true);
    var v' := Share(v, k, c);
    forall y | y in v'.pts
      ensures EntryOk(v', y)
    {
      MappersSame(v.pts, k, e, v'.pts[y].ppn);
      MappersAdd(v.pts[k := e], c, e, v'.pts[y].ppn);
      if y != k && y != c {
        assert EntryOk(v, y);
        if v.pts[y].ppn == p {
          TwoMappers(v, k, y);
        }
      } else {
        assert EntryOk(v, k);
      }
    }
  }

  lemma CowUnmapEntries(v: Vm, k: Key)
    requires Entries(v) && k in v.pts
    ensures v.pts[k].ppn in v.count && Entries(CowUnmap(v, k))
    ensures v.pts[k].ppn in CowUnmap(v, k).free <==> Mappers(v.pts - {k}, v.pts[k].ppn) == {}
  {
    MappedCount(v, k);
    var p := v.pts[k].ppn;
    var v' := CowUnmap(v, k);
    FreeCons(p, v.free);
    assert EntryOk(v, k);
    MappersRemove(v.pts, k, p);
    assert k in Mappers(v.pts, p);
    assert |Mappers(v.pts - {k}, p)| == v.count[p] - 1;
    forall y | y in v'.pts
      ensures EntryOk(v', y)
    {
      assert EntryOk(v, y);
      MappersRemove(v.pts, k, v.pts[y].ppn);
      if v.pts[y].ppn == p {
        TwoMappers(v, k, y);
      }
    }
  }

  /** The plain unmap keeps the counters right exactly when nobody else maps the page. */
  lemma PlainUnmapExactly(v: Vm, k: Key)
    requires Entries(v) && k in v.pts
    ensures Entries(PlainUnmap(v, k)) <==> Mappers(v.pts, v.pts[k].ppn) == {k}
  {
    MappedCount(v, k);
    var p := v.pts[k].ppn;
    var v' := PlainUnmap(v, k);
    FreeCons(p, v.free);
    if Mappers(v.pts, p) == {k} {
      forall y | y in v'.pts
        ensures EntryOk(v', y)
      {
        assert EntryOk(v, y) && y in Mappers(v.pts, v.pts[y].ppn);
        MappersRemove(v.pts, k, v.pts[y].ppn);
      }
    } else {
      assert k in Mappers(v.pts, p);
      var y :| y in Mappers(v.pts, p) && y != k;
      assert y in v'.pts && !EntryOk(v', y);
    }
  }

  // ---------- The page fault ----------

  datatype Option<T> = None | Some(value: T)

  /** cow_copyuvm for page k; `below` says whether the address is below the process size. */
  function Fault(v: Vm, k: Key, below: bool): Option<Vm> {
    if k !in v.pts || !v.pts[k].sh || !below || v.pts[k].ppn !in v.count || v.pts[k].ppn !in v.mem then None
    else
      var e := v.pts[k];
      if v.count[e.ppn] > 1 then
        if v.free == [] then None
        else
          var x := v.free[0];
          Some(v.(pts := v.pts[k := Pte(x, true, e.u, false)],
                  mem := v.mem[x := v.mem[e.ppn]],
                  count := v.count[x := 1][e.ppn := v.count[e.ppn] - 1],
                  free := v.free[1..]))
      else Some(v.(pts := v.pts[k := e.(w := true, sh := false)]))
  }

  /** A copying fault unmaps the shared page and maps a fresh copy. */
  lemma FaultCopies(v: Vm, k: Key)
    requires Entries(v) && k in v.pts && v.pts[k].sh && v.count[v.pts[k].ppn] > 1 && v.free != []
    ensures v.pts[k].ppn in v.count && v.pts[k].ppn in v.mem && CowUnmap(v, k).free == v.free
    ensures Fault(v, k, true) == Some(MapFresh(Popped(CowUnmap(v, k)), k, v.free[0], v.mem[v.pts[k].ppn], v.pts[k].u, false))
  {
    MappedCount(v, k);
    var e, x := v.pts[k], v.free[0];
    assert x != e.ppn;
    assert (v.pts - {k})[k := Pte(x, true, e.u, false)] == v.pts[k := Pte(x, true, e.u, false)];
    assert v.count[e.ppn := v.count[e.ppn] - 1][x := 1] == v.count[x := 1][e.ppn := v.count[e.ppn] - 1];
  }

  lemma FaultCopyEntries(v: Vm, k: Key)
    requires Entries(v) && k in v.pts && v.pts[k].sh && v.count[v.pts[k].ppn] > 1 && v.free != []
    ensures Fault(v, k, true).Some? && Entries(Fault(v, k, true).value)
  {
    hide Entries;
    MappedCount(v, k);
    FaultCopies(v, k);
    CowUnmapEntries(v, k);
    MapFreshEntries(CowUnmap(v, k), k, v.mem[v.pts[k].ppn], v.pts[k].u, false);
  }

  lemma FaultKeepEntries(v: Vm, k: Key)
    requires Entries(v) && k in v.pts && v.pts[k].sh && v.count[v.pts[k].ppn] <= 1
    ensures Fault(v, k, true).Some? && Entries(Fault(v, k, true).value)
  {
    MappedCount(v, k);
    var v' := Fault(v, k, true).value;
    forall y | y in v'.pts
      ensures EntryOk(v', y)
    {
      assert EntryOk(v, y) && EntryOk(v, k);
      MappersSame(v.pts, k, v'.pts[k], v'.pts[y].ppn);
    }
  }

  /**
   A fault below the size on a shared page succeeds unless a copy is needed
   and no page is free; afterwards the page is private and writable, with the
   contents and the user bit it had.
   */
  lemma FaultCorrect(v: Vm, k: Key, below: bool)
    requires Entries(v)
    ensures Fault(v, k, below).Some? <==>
            below && k in v.pts && v.pts[k].sh && (v.count[v.pts[k].ppn] > 1 ==> v.free != [])
    ensures Fault(v, k, below).Some? ==>
              var v' := Fault(v, k, below).value;
              && Entries(v') && v'.pts.Keys == v.pts.Keys && v'.sz == v.sz
              && v'.pts[k].w && !v'.pts[k].sh && v'.pts[k].u == v.pts[k].u
              && v'.mem[v'.pts[k].ppn] == v.mem[v.pts[k].ppn]
              && forall y :: y in v.pts && y != k ==> v'.pts[y] == v.pts[y] && v'.mem[v.pts[y].ppn] == v.mem[v.pts[y].ppn]
  {
    if k in v.pts {
      MappedCount(v, k);
    }
    if Fault(v, k, below).Some? {
      if v.count[v.pts[k].ppn] > 1 {
        FaultCopyEntries(v, k);
      } else {
        FaultKeepEntries(v, k);
      }
      forall y | y in v.pts && y != k
        ensures v.pts[y].ppn in v.mem && v.pts[y].ppn !in v.free
      {
        MappedCount(v, y);
      }
    }
  }

  // ---------- No page is lost or invented ----------

  /** Entries that name the same pages leave the same pages mapped. */
  lemma SamePages(pts: map<Key, Pte>, pts': map<Key, Pte>)
    requires forall y :: y in pts ==> y in pts' && pts'[y].ppn == pts[y].ppn
    requires forall y :: y in pts' ==> pts'[y].ppn in MappedPages(pts)
    ensures MappedPages(pts') == MappedPages(pts)
  {
    forall p
      ensures p in MappedPages(pts') <==> p in MappedPages(pts)
    {
      if p in MappedPages(pts) {
        var y :| y in pts && pts[y].ppn == p;
        assert y in pts' && pts'[y].ppn == p;
      }
    }
  }

  lemma SharePool(v: Vm, k: Key, c: Key)
    requires k in v.pts && c !in v.pts && v.pts[k].ppn in v.count
    ensures Pool(Share(v, k, c)) == Pool(v)
  {
    SamePages(v.pts, Share(v, k, c).pts);
  }

  /** The page leaves the entries exactly when it joins the free list. */
  lemma CowUnmapPool(v: Vm, k: Key)
    requires Entries(v) && k in v.pts && v.pts[k].ppn in v.count
    ensures Pool(CowUnmap(v, k)) == Pool(v)
  {
    CowUnmapEntries(v, k);
    var p, w := v.pts[k].ppn, CowUnmap(v, k);
    forall x
      ensures x in Pool(w) <==> x in Pool(v)
    {
      if x in MappedPages(v.pts) {
        var y :| y in v.pts && v.pts[y].ppn == x;
        if y != k {
          assert y in w.pts && w.pts[y].ppn == x;
        } else if Mappers(v.pts - {k}, p) != {} {
          var z :| z in Mappers(v.pts - {k}, p);
          assert z in w.pts && w.pts[z].ppn == x;
        }
      }
      assert v.pts[k].ppn in MappedPages(v.pts);
    }
  }

  lemma FaultPool(v: Vm, k: Key, below: bool)
    requires Entries(v) && Fault(v, k, below).Some?
    ensures Pool(Fault(v, k, below).value) == Pool(v)
  {
    MappedCount(v, k);
    if v.count[v.pts[k].ppn] > 1 {
      FaultCopies(v, k);
      CowUnmapEntries(v, k);
      CowUnmapPool(v, k);
      MapFreshPool(CowUnmap(v, k), k, v.mem[v.pts[k].ppn], v.pts[k].u, false);
    } else {
      SamePages(v.pts, Fault(v, k, below).value.pts);
    }
  }
}
