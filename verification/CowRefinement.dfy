/**
 Copy-on-write fork refines eager fork: each process sees the bytes it would
 see if fork had copied every page at once (copyuvm).
 */
module CowRefinement {
  import opened Blocks
  import opened PageWalk
  import opened Cow
  import opened CowCells

  // ---------- Events ----------

  datatype Outcome = Done | Killed | Refused | NoMemory

  datatype Event =
    | Fork(p: nat, c: nat)
    | Store(p: nat, va: nat, b: Byte)
    | Exit(p: nat, pds: set<nat>)
    | Grow(p: nat, n: nat)
    | Shrink(p: nat, n: nat, pds: set<nat>)

  /** cow_fork, a user store with its faults, and exit with cow_wait. */
  function CowFork(v: Vm, p: nat, c: nat): Vm
    requires p in v.sz
  {
    var w := ShareUpTo(v, p, c, Pages(v.sz[p]));
    w.(sz := w.sz[c := v.sz[p]])
  }

  /**
   A user store retried after every fault that cow_copyuvm resolves; any other
   fault kills the process (trap.c).
   */
  function CowStore(v: Vm, p: nat, va: nat, b: Byte): (Vm, Outcome)
    requires p in v.sz
  {
    var k, off := (p, va / PGSIZE), va % PGSIZE;
    if k !in v.pts || v.pts[k].ppn !in v.mem || v.pts[k].ppn !in v.count then (v, Killed)
    else if v.pts[k].w && v.pts[k].u then (Poke(v, k, off, b), Done)
    else
      match Fault(v, k, va < v.sz[p])
      case None => (v, if v.pts[k].sh && va < v.sz[p] then NoMemory else Killed)
      case Some(w) =>
        if k in w.pts && w.pts[k].w && w.pts[k].u && w.pts[k].ppn in w.mem then (Poke(w, k, off, b), Done) else (w, Killed)
  }

  function CowExit(v: Vm, p: nat, pds: set<nat>): Vm {
    var w := CowDrop(v, p, pds, 0, KERNBASE / PGSIZE);
    w.(sz := w.sz - {p})
  }

  /** growproc with n more bytes; a growth that runs out of pages takes back what it added. */
  function CowGrow(v: Vm, p: nat, n: nat): (Vm, Outcome)
    requires p in v.sz
  {
    var lo, hi := Pages(v.sz[p]), Pages(v.sz[p] + n);
    if v.sz[p] + n >= KERNBASE then (v, Refused)
    else if hi - lo <= |v.free| then
      PagesGrow(v.sz[p], n);
      var w := GrowUpTo(v, p, lo, hi);
      (w.(sz := w.sz[p := v.sz[p] + n]), Done)
    else (PlainDrop(GrowUpTo(v, p, lo, lo + |v.free|), p, Tables(lo + |v.free|), lo, lo + |v.free|), NoMemory)
  }

  /**
   growproc with n bytes less: the plain walk.  Past 0 the new size wraps and
   nothing changes; at 0 the pages go and growproc fails, so the size stays.
   */
  function CowShrink(v: Vm, p: nat, n: nat, pds: set<nat>): (Vm, Outcome)
    requires p in v.sz
  {
    if n > v.sz[p] || n == 0 then (v, Done)
    else
      var w := PlainDrop(v, p, pds, Pages(v.sz[p] - n), Pages(v.sz[p]));
      if n == v.sz[p] then (w, Refused) else (w.(sz := w.sz[p := v.sz[p] - n]), Done)
  }

  lemma PagesGrow(sz: nat, n: nat)
    ensures Pages(sz) <= Pages(sz + n)
  {
  }

  function CowNext(v: Vm, e: Event): (Vm, Outcome)
    requires e.p in v.sz
  {
    match e
    case Fork(p, c) => (CowFork(v, p, c), Done)
    case Store(p, va, b) => CowStore(v, p, va, b)
    case Exit(p, pds) => (CowExit(v, p, pds), Done)
    case Grow(p, n) => CowGrow(v, p, n)
    case Shrink(p, n, pds) => CowShrink(v, p, n, pds)
  }

  /**
   Existing processes; a new process for fork; a page directory that covers
   what it maps; no shrinking of shared pages or to nothing.
   */
  ghost predicate Allowed(v: Vm, e: Event) {
    && e.p in v.sz
    && match e
       case Fork(p, c) => c !in v.sz
       case Store(p, va, _) => va < v.sz[p]
       case Exit(p, pds) => forall n: nat :: n < Pages(v.sz[p]) ==> PDX(n) in pds
       case Grow(p, n) => true
       case Shrink(p, n, pds) =>
         && n != v.sz[p] && (forall i: nat :: i < Pages(v.sz[p]) ==> PDX(i) in pds)
         && (n < v.sz[p] ==> Unshared(v, p, Pages(v.sz[p] - n), Pages(v.sz[p])))
  }

  // ---------- The eager reference ----------

  /** Every process owns its pages outright. */
  datatype Eager = Eager(cells: map<Key, Cell>, sz: map<nat, nat>)

  function EagerNext(g: Eager, e: Event): (Eager, Outcome)
    requires e.p in g.sz
  {
    match e
    case Fork(p, c) => (Eager(CopyCells(g.cells, p, c, Pages(g.sz[p])), g.sz[c := g.sz[p]]), Done)
    case Store(p, va, b) =>
      var k := (p, va / PGSIZE);
      if k in g.cells && g.cells[k].user then
        (g.(cells := g.cells[k := g.cells[k].(page := g.cells[k].page[va % PGSIZE := b])]), Done)
      else (g, Killed)
    case Exit(p, _) => (Eager(map k | k in g.cells && k.0 != p :: g.cells[k], g.sz - {p}), Done)
    case Grow(p, n) =>
      if g.sz[p] + n >= KERNBASE then (g, Refused)
      else
        PagesGrow(g.sz[p], n);
        (Eager(ZeroCells(g.cells, p, Pages(g.sz[p]), Pages(g.sz[p] + n)), g.sz[p := g.sz[p] + n]), Done)
    case Shrink(p, n, _) =>
      if n > g.sz[p] || n == 0 then (g, Done)
      else (Eager(map k | k in g.cells && !(k.0 == p && k.1 >= Pages(g.sz[p] - n)) :: g.cells[k], g.sz[p := g.sz[p] - n]), Done)
  }

  ghost function Abs(v: Vm): Eager
    requires Entries(v)
  {
    Eager(Cells(v), v.sz)
  }

  lemma ForkRefines(v: Vm, p: nat, c: nat)
    requires Inv(v) && Allowed(v, Fork(p, c))
    ensures Inv(CowFork(v, p, c))
    ensures Abs(CowFork(v, p, c)) == EagerNext(Abs(v), Fork(p, c)).0
  {
    ShareAll(v, p, c, Pages(v.sz[p]));
    var w := ShareUpTo(v, p, c, Pages(v.sz[p]));
    EntriesIgnoreSizes(w, w.sz[c := v.sz[p]]);
  }

  lemma EntriesIgnoreSizes(v: Vm, sz: map<nat, nat>)
    requires Entries(v)
    ensures Entries(v.(sz := sz)) && Cells(v.(sz := sz)) == Cells(v)
  {
    var w := v.(sz := sz);
    forall k | k in w.pts
      ensures EntryOk(w, k)
    {
      assert EntryOk(v, k);
    }
  }

  /** A store through a writable user entry is the eager store. */
  lemma PokeRefines(v: Vm, p: nat, va: nat, b: Byte)
    requires Inv(v) && p in v.sz && (p, va / PGSIZE) in v.pts && v.pts[(p, va / PGSIZE)].w && v.pts[(p, va / PGSIZE)].u
    ensures v.pts[(p, va / PGSIZE)].ppn in v.mem
    ensures var v' := Poke(v, (p, va / PGSIZE), va % PGSIZE, b);
            Inv(v') && EagerNext(Abs(v), Store(p, va, b)) == (Abs(v'), Done)
  {
    var k := (p, va / PGSIZE);
    PokeCells(v, k, va % PGSIZE, b);
    CellAt(v, k);
    SizesSame(v, Poke(v, k, va % PGSIZE, b));
  }

  /** A resolved fault changes nothing that a process sees. */
  lemma FaultRefines(v: Vm, p: nat, va: nat)
    requires Inv(v) && p in v.sz && Fault(v, (p, va / PGSIZE), true).Some?
    ensures var k := (p, va / PGSIZE);
            var w := Fault(v, k, true).value;
            && Inv(w) && Abs(w) == Abs(v) && k in v.pts && k in w.pts && w.pts[k].w && w.pts[k].u == v.pts[k].u && w.pts[k].ppn in w.mem
  {
    var k := (p, va / PGSIZE);
    var w := Fault(v, k, true).value;
    FaultCorrect(v, k, true);
    FaultCells(v, k, true);
    SizesSame(v, w);
    assert k in w.pts.Keys;
    MappedCount(w, k);
  }

  lemma StoreRefines(v: Vm, p: nat, va: nat, b: Byte)
    requires Inv(v) && Allowed(v, Store(p, va, b))
    ensures var (v', o) := CowStore(v, p, va, b);
            && Inv(v')
            && (o == NoMemory ==> v' == v && v.free == [])
            && (o != NoMemory ==> EagerNext(Abs(v), Store(p, va, b)) == (Abs(v'), o))
  {
    var k := (p, va / PGSIZE);
    BelowSize(va, v.sz[p]);
    assert k in v.pts;
    MappedCount(v, k);
    assert EntryOk(v, k);
    CellAt(v, k);
    FaultCorrect(v, k, true);
    hide Entries, SizesOk, Cells, Fault, EntryOk, Poke;
    if v.pts[k].w && v.pts[k].u {
      PokeRefines(v, p, va, b);
    } else if Fault(v, k, true).Some? {
      FaultRefines(v, p, va);
      if v.pts[k].u {
        PokeRefines(Fault(v, k, true).value, p, va, b);
      }
    }
  }

  lemma BelowSize(va: nat, sz: nat)
    requires va < sz
    ensures va / PGSIZE < Pages(sz)
  {
  }

  lemma SizesSame(v: Vm, w: Vm)
    requires SizesOk(v) && w.pts.Keys == v.pts.Keys && w.sz == v.sz
    ensures SizesOk(w)
  {
    assert forall k :: k in w.pts <==> k in v.pts.Keys;
  }

  /** A walk of the whole user part from page 0 leaves nothing of the process. */
  lemma DropWhole(v: Vm, w: Vm, p: nat, pds: set<nat>)
    requires Entries(v) && Entries(w)
    requires Cells(w) == DropCells(Cells(v), p, Visited(pds, 0, KERNBASE / PGSIZE))
    requires forall x: nat :: (p, x) in v.pts ==> x < KERNBASE / PGSIZE && PDX(x) in pds
    ensures Cells(w) == map k | k in Cells(v) && k.0 != p :: Cells(v)[k]
    ensures forall k :: k in w.pts <==> k in v.pts && k.0 != p
  {
    var hi := KERNBASE / PGSIZE;
    var gone := Visited(pds, 0, hi);
    hide Entries, Visited, Cells;
    forall k
      ensures k in w.pts <==> k in v.pts && k.0 != p
    {
      if k in v.pts && k.0 == p {
        assert (p, k.1) in v.pts;
        AlignedStartMissesNothing(pds, 0, hi, k.1);
      }
      CellAt(v, k);
      CellAt(w, k);
    }
    forall k
      ensures k in Cells(w) <==> k in Cells(v) && k.0 != p
    {
      CellAt(v, k);
      CellAt(w, k);
    }
  }

  lemma ExitCells(v: Vm, p: nat, pds: set<nat>)
    requires Inv(v) && Allowed(v, Exit(p, pds))
    ensures var w := CowDrop(v, p, pds, 0, KERNBASE / PGSIZE);
            && Entries(w) && w.sz == v.sz
            && Cells(w) == (map k | k in Cells(v) && k.0 != p :: Cells(v)[k])
            && forall k :: k in w.pts <==> k in v.pts && k.0 != p
  {
    CowDropAll(v, p, pds, 0, KERNBASE / PGSIZE);
    DropWhole(v, CowDrop(v, p, pds, 0, KERNBASE / PGSIZE), p, pds);
  }

  lemma ExitSizes(v: Vm, w: Vm, p: nat)
    requires SizesOk(v) && w.sz == v.sz - {p} && forall k :: k in w.pts <==> k in v.pts && k.0 != p
    ensures SizesOk(w)
  {
  }

  lemma ExitRefines(v: Vm, p: nat, pds: set<nat>)
    requires Inv(v) && Allowed(v, Exit(p, pds))
    ensures Inv(CowExit(v, p, pds))
    ensures Abs(CowExit(v, p, pds)) == EagerNext(Abs(v), Exit(p, pds)).0
  {
    ExitCells(v, p, pds);
    hide Entries, Cells, CowDrop, SizesOk;
    var w := CowDrop(v, p, pds, 0, KERNBASE / PGSIZE);
    EntriesIgnoreSizes(w, w.sz - {p});
    ExitSizes(v, CowExit(v, p, pds), p);
  }

  // ---------- Growing and shrinking ----------

  lemma GrowRefines(v: Vm, p: nat, n: nat)
    requires Inv(v) && p in v.sz
    ensures var (v', o) := CowGrow(v, p, n);
            && Inv(v') && Pool(v') == Pool(v)
            && (o == NoMemory <==> v.sz[p] + n < KERNBASE && |v.free| < Pages(v.sz[p] + n) - Pages(v.sz[p]))
            && (o == NoMemory ==> Abs(v') == Abs(v))
            && (o != NoMemory ==> EagerNext(Abs(v), Grow(p, n)) == (Abs(v'), o))
  {
    hide Entries, SizesOk, Cells, GrowUpTo, PlainDrop, Pool, Pages, ZeroCells, Tables;
    var sz, lo, hi := v.sz[p], Pages(v.sz[p]), Pages(v.sz[p] + n);
    if sz + n < KERNBASE {
      PagesGrow(sz, n);
      PagesMapped(v, p);
      if hi - lo <= |v.free| {
        GrowAll(v, p, lo, hi);
        var w := GrowUpTo(v, p, lo, hi);
        EntriesIgnoreSizes(w, w.sz[p := sz + n]);
        SizesOnly(w, w.(sz := w.sz[p := sz + n]));
        GrownSizes(v, w.(sz := w.sz[p := sz + n]), p, sz + n);
      } else {
        var m := lo + |v.free|;
        GrowUndone(v, p, lo, m);
        SizesSame(v, PlainDrop(GrowUpTo(v, p, lo, m), p, Tables(m), lo, m));
      }
    }
  }

  /** A process that grew finds every byte of its new pages there, and 0. */
  lemma GrownReadsZero(v: Vm, p: nat, n: nat, va: nat)
    requires Inv(v) && p in v.sz && CowGrow(v, p, n).1 == Done
    requires Pages(v.sz[p]) * PGSIZE <= va < v.sz[p] + n
    ensures Inv(CowGrow(v, p, n).0)
    ensures var cells := Cells(CowGrow(v, p, n).0);
            (p, va / PGSIZE) in cells && cells[(p, va / PGSIZE)].user && cells[(p, va / PGSIZE)].page[va % PGSIZE] == 0
  {
    hide Pages, CowGrow, Entries, SizesOk, Cells, ZeroCells, Pool;
    NewPage(v.sz[p], n, va);
    GrowRefines(v, p, n);
    ZeroAt(Cells(v), p, Pages(v.sz[p]), Pages(v.sz[p] + n), (p, va / PGSIZE));
  }

  lemma NewPage(sz: nat, n: nat, va: nat)
    requires Pages(sz) * PGSIZE <= va < sz + n
    ensures Pages(sz) <= va / PGSIZE < Pages(sz + n)
  {
    hide Pages;
    PagesLeast(sz + n, va / PGSIZE);
  }

  lemma PagesMapped(v: Vm, p: nat)
    requires SizesOk(v) && p in v.sz
    ensures forall i: nat :: (p, i) in v.pts ==> i < Pages(v.sz[p])
  {
    hide Pages;
  }

  lemma GrownSizes(v: Vm, w: Vm, p: nat, sz: nat)
    requires SizesOk(v) && p in v.sz && v.sz[p] <= sz < KERNBASE && w.sz == v.sz[p := sz]
    requires forall k :: k in w.pts <==> k in v.pts || (k.0 == p && Pages(v.sz[p]) <= k.1 < Pages(sz))
    ensures SizesOk(w)
  {
    PagesGrow(v.sz[p], sz - v.sz[p]);
    hide Pages;
  }

  /** The walk of a shrinking process drops exactly its pages from the new size on. */
  lemma ShrinkDrops(v: Vm, p: nat, lo: nat, hi: nat, pds: set<nat>)
    requires Entries(v) && Unshared(v, p, lo, hi) && (forall i :: 0 <= i < hi ==> PDX(i) in pds)
    requires forall i: nat :: (p, i) in v.pts ==> i < hi
    ensures var w := PlainDrop(v, p, pds, lo, hi);
            && Entries(w) && w.sz == v.sz && Pool(w) == Pool(v)
            && Cells(w) == (map k | k in Cells(v) && !(k.0 == p && k.1 >= lo) :: Cells(v)[k])
            && forall k :: k in w.pts <==> k in v.pts && !(k.0 == p && k.1 >= lo)
  {
    hide Entries, Cells, Pool, Visited, PlainDrop, Unshared;
    PlainDropAll(v, p, pds, lo, hi);
    PlainDropPool(v, p, pds, lo, hi);
    VisitsAll(pds, lo, hi);
    var w := PlainDrop(v, p, pds, lo, hi);
    forall k
      ensures k in w.pts <==> k in v.pts && !(k.0 == p && k.1 >= lo)
      ensures k in Cells(w) <==> k in Cells(v) && !(k.0 == p && k.1 >= lo)
    {
      CellAt(v, k);
      CellAt(w, k);
      assert k in v.pts && k.0 == p ==> (p, k.1) in v.pts;
    }
  }

  lemma ShrunkSizes(v: Vm, w: Vm, p: nat, sz: nat)
    requires SizesOk(v) && p in v.sz && sz <= v.sz[p] && w.sz == v.sz[p := sz]
    requires forall k :: k in w.pts <==> k in v.pts && !(k.0 == p && k.1 >= Pages(sz))
    ensures SizesOk(w)
  {
    PagesGrow(sz, v.sz[p] - sz);
    hide Pages;
  }

  lemma ShrinkRefines(v: Vm, p: nat, n: nat, pds: set<nat>)
    requires Inv(v) && Allowed(v, Shrink(p, n, pds))
    ensures var (v', o) := CowShrink(v, p, n, pds);
            Inv(v') && Pool(v') == Pool(v) && EagerNext(Abs(v), Shrink(p, n, pds)) == (Abs(v'), o)
  {
    hide Entries, SizesOk, Cells, PlainDrop, Pool, Pages, Unshared;
    if 0 < n < v.sz[p] {
      var sz, lo, hi := v.sz[p] - n, Pages(v.sz[p] - n), Pages(v.sz[p]);
      PagesMapped(v, p);
      ShrinkDrops(v, p, lo, hi, pds);
      var w := PlainDrop(v, p, pds, lo, hi);
      EntriesIgnoreSizes(w, w.sz[p := sz]);
      SizesOnly(w, w.(sz := w.sz[p := sz]));
      ShrunkSizes(v, w.(sz := w.sz[p := sz]), p, sz);
    }
  }

  /**
   growproc with exactly minus the size frees every page and then fails, so
   the process keeps a size without pages; no other amount does that.
   */
  lemma ShrinkExactly(v: Vm, p: nat, n: nat, pds: set<nat>)
    requires Inv(v) && p in v.sz && v.sz[p] > 0 && forall i: nat :: i < Pages(v.sz[p]) ==> PDX(i) in pds
    requires Unshared(v, p, 0, Pages(v.sz[p]))
    ensures Inv(CowShrink(v, p, n, pds).0) <==> n != v.sz[p]
  {
    hide Entries, Cells, PlainDrop, Pool, Pages, Unshared;
    if n == v.sz[p] {
      PagesMapped(v, p);
      PagesOfNone(v.sz[p]);
      ShrinkDrops(v, p, 0, Pages(v.sz[p]), pds);
      assert p in v.sz && 0 < Pages(v.sz[p]) && (p, 0) !in CowShrink(v, p, n, pds).0.pts;
    } else {
      UnsharedPart(v, p, if n < v.sz[p] then Pages(v.sz[p] - n) else 0, Pages(v.sz[p]));
      ShrinkRefines(v, p, n, pds);
    }
  }

  lemma PagesOfNone(sz: nat)
    requires sz > 0
    ensures Pages(0) == 0 < Pages(sz)
  {
  }

  lemma UnsharedPart(v: Vm, p: nat, a: nat, hi: nat)
    requires Unshared(v, p, 0, hi)
    ensures Unshared(v, p, a, hi)
  {
  }

  /** Every step of the copy-on-write system is the eager step, except a store or a growth that found too few free pages. */
  lemma StepRefines(v: Vm, e: Event)
    requires Inv(v) && Allowed(v, e)
    ensures var (v', o) := CowNext(v, e);
            && Inv(v')
            && (o == NoMemory ==> Abs(v') == Abs(v) && (e.Store? ==> v' == v && v.free == []))
            && (o == NoMemory && !e.Store? ==> e.Grow? && |v.free| < Pages(v.sz[e.p] + e.n) - Pages(v.sz[e.p]))
            && (o != NoMemory ==> EagerNext(Abs(v), e) == (Abs(v'), o))
  {
    match e
    case Grow(p, n) => GrowRefines(v, p, n);
    case Shrink(p, n, pds) => ShrinkRefines(v, p, n, pds);
    case Fork(p, c) => ForkRefines(v, p, c);
    case Store(p, va, b) => StoreRefines(v, p, va, b);
    case Exit(p, pds) => ExitRefines(v, p, pds);
  }

  // ---------- Whole runs ----------

  ghost predicate AllAllowed(v: Vm, es: seq<Event>)
    requires Inv(v)
    decreases |es|
  {
    es == [] || (Allowed(v, es[0]) && (StepRefines(v, es[0]); AllAllowed(CowNext(v, es[0]).0, es[1..])))
  }

  ghost function CowRun(v: Vm, es: seq<Event>): Vm
    requires Inv(v) && AllAllowed(v, es)
    decreases |es|
  {
    if es == [] then v else StepRefines(v, es[0]); CowRun(CowNext(v, es[0]).0, es[1..])
  }

  /** The eager system on the same events, leaving out the steps that ran out of memory. */
  ghost function EagerRun(g: Eager, v: Vm, es: seq<Event>): Eager
    requires Inv(v) && AllAllowed(v, es) && g == Abs(v)
    decreases |es|
  {
    if es == [] then g
    else
      StepRefines(v, es[0]);
      var (v', o) := CowNext(v, es[0]);
      EagerRun(if o == NoMemory then g else EagerNext(g, es[0]).0, v', es[1..])
  }

  /**
   Copy-on-write refines eager copying: after any run of forks, user stores
   below the size, exits, and growing and shrinking by sbrk, every process sees the bytes that eager copying
   gives it, and the counters are right.
   */
  lemma {:induction false} CowRefinesEager(v: Vm, es: seq<Event>)
    requires Inv(v) && AllAllowed(v, es)
    ensures Inv(CowRun(v, es))
    ensures Abs(CowRun(v, es)) == EagerRun(Abs(v), v, es)
    decreases |es|
  {
    if es != [] {
      StepRefines(v, es[0]);
      CowRefinesEager(CowNext(v, es[0]).0, es[1..]);
    }
  }

  /**
   Between the size and the end of the last page the two systems part exactly
   on shared user pages: eager copying stores, copy-on-write kills.
   */
  lemma StoreAboveSizeExactly(v: Vm, p: nat, va: nat, b: Byte)
    requires Inv(v) && p in v.sz && v.sz[p] <= va && (p, va / PGSIZE) in v.pts
    ensures var e := v.pts[(p, va / PGSIZE)];
            CowStore(v, p, va, b).1 == EagerNext(Abs(v), Store(p, va, b)).1 <==> !(e.sh && e.u)
  {
    var k := (p, va / PGSIZE);
    MappedCount(v, k);
    assert EntryOk(v, k);
    CellAt(v, k);
  }

  // ---------- The page pool over whole runs ----------

  lemma {:induction false} SharePools(v: Vm, p: nat, c: nat, n: nat)
    requires Entries(v) && p != c
    requires forall i :: 0 <= i < n ==> (p, i) in v.pts && (c, i) !in v.pts
    ensures Pool(ShareUpTo(v, p, c, n)) == Pool(v)
  {
    hide Entries, Share, Pool, Cells, CopyCells;
    if n > 0 {
      SharePools(v, p, c, n - 1);
      ShareAll(v, p, c, n - 1);
      var w := ShareUpTo(v, p, c, n - 1);
      MappedCount(w, (p, n - 1));
      SharePool(w, (p, n - 1), (c, n - 1));
    }
  }

  lemma {:induction false} DropPools(v: Vm, p: nat, pds: set<nat>, a: nat, hi: nat)
    requires Entries(v)
    ensures Pool(CowDrop(v, p, pds, a, hi)) == Pool(v)
    decreases if a < hi then hi - a else 0
  {
    hide Entries, CowUnmap, Pool;
    if a < hi {
      if PDX(a) !in pds {
        DropPools(v, p, pds, a + NPTENTRIES, hi);
      } else if (p, a) in v.pts && v.pts[(p, a)].ppn in v.count {
        CowUnmapEntries(v, (p, a));
        CowUnmapPool(v, (p, a));
        DropPools(CowUnmap(v, (p, a)), p, pds, a + 1, hi);
      } else {
        DropPools(v, p, pds, a + 1, hi);
      }
    }
  }

  lemma StorePool(v: Vm, p: nat, va: nat, b: Byte)
    requires Entries(v) && p in v.sz
    ensures Pool(CowStore(v, p, va, b).0) == Pool(v)
  {
    var k := (p, va / PGSIZE);
    if Fault(v, k, va < v.sz[p]).Some? {
      FaultPool(v, k, va < v.sz[p]);
    }
  }

  lemma ForkPool(v: Vm, p: nat, c: nat)
    requires Inv(v) && p in v.sz && c !in v.sz
    ensures Pool(CowFork(v, p, c)) == Pool(v)
  {
    SharePools(v, p, c, Pages(v.sz[p]));
  }

  /** Over every run, the pages in use and the free pages together stay the same. */
  lemma {:induction false} RunKeepsPool(v: Vm, es: seq<Event>)
    requires Inv(v) && AllAllowed(v, es)
    ensures Pool(CowRun(v, es)) == Pool(v)
    decreases |es|
  {
    hide Pool, CowDrop;
    if es != [] {
      var e := es[0];
      StepRefines(v, e);
      match e {
        case Fork(p, c) => ForkPool(v, p, c);
        case Store(p, va, b) => StorePool(v, p, va, b);
        case Grow(p, n) => GrowRefines(v, p, n);
        case Shrink(p, n, pds) => ShrinkRefines(v, p, n, pds);
        case Exit(p, pds) =>
          DropPools(v, p, pds, 0, KERNBASE / PGSIZE);
          SizesOnly(CowDrop(v, p, pds, 0, KERNBASE / PGSIZE), CowExit(v, p, pds));
      }
      RunKeepsPool(CowNext(v, e).0, es[1..]);
    }
  }

  lemma SizesOnly(v: Vm, w: Vm)
    requires v.pts == w.pts && v.free == w.free
    ensures Pool(v) == Pool(w)
  {
  }

  // ---------- Where plain unmapping and stores past the size fail ----------

  /** Process 1 with one user page and a size of one byte, and no free page. */
  function OnePage(): Vm {
    Vm(map[(1, 0) := Pte(0, true, true, false)], map[1 := 1], map[0 := ZeroPage()], map[0 := 1], [])
  }

  /** Processes 1 and 2 after the fork. */
  function SharedPage(): Vm {
    var e := Pte(0, false, true, true);
    Vm(map[(1, 0) := e, (2, 0) := e], map[1 := 1, 2 := 1], map[0 := ZeroPage()], map[0 := 2], [])
  }

  lemma ForkShares()
    ensures Inv(OnePage()) && CowFork(OnePage(), 1, 2) == SharedPage() && Inv(SharedPage())
  {
    var v := OnePage();
    assert Mappers(v.pts, 0) == {(1, 0)};
    assert EntryOk(v, (1, 0));
    assert ShareUpTo(v, 1, 2, 0) == v;
    assert v.pts[(1, 0) := Pte(0, false, true, true)] == map[(1, 0) := Pte(0, false, true, true)];
    assert ShareUpTo(v, 1, 2, 1) == SharedPage().(sz := v.sz);
    ForkRefines(v, 1, 2);
  }

  /** Plain deallocuvm on the page shared by a fork leaves the child a page that is on the free list. */
  lemma PlainUnmapOfShared()
    ensures Entries(SharedPage()) && !Entries(PlainUnmap(SharedPage(), (1, 0)))
    ensures 0 in PlainUnmap(SharedPage(), (1, 0)).free && PlainUnmap(SharedPage(), (1, 0)).pts[(2, 0)].ppn == 0
  {
    ForkShares();
    assert (2, 0) in Mappers(SharedPage().pts, 0);
    PlainUnmapExactly(SharedPage(), (1, 0));
  }

  /** A store to the second byte of that page, past the size: killed, where eager copying stores. */
  lemma StorePastSizeKilled(b: Byte)
    ensures Inv(SharedPage()) && CowStore(SharedPage(), 1, 1, b).1 == Killed
    ensures EagerNext(Abs(SharedPage()), Store(1, 1, b)).1 == Done
  {
    ForkShares();
    CellAt(SharedPage(), (1, 0));
  }
}
