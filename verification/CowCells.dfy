/**
 What processes see of their pages, and the loops of vm.c over whole address
 spaces as functions: share, drop with and without counters, grow.
 */
module CowCells {
  import opened Blocks
  import opened PageWalk
  import opened Cow

  /** What a process sees of one of its pages: the contents, and whether user code may touch it. */
  datatype Cell = Cell(page: Page, user: bool)

  ghost function Cells(v: Vm): map<Key, Cell>
    requires Entries(v)
  {
    map k | k in v.pts && EntryOk(v, k) :: Cell(v.mem[v.pts[k].ppn], v.pts[k].u)
  }

  lemma CellAt(v: Vm, k: Key)
    requires Entries(v)
    ensures k in Cells(v) <==> k in v.pts
    ensures k in v.pts ==> v.pts[k].ppn in v.mem && Cells(v)[k] == Cell(v.mem[v.pts[k].ppn], v.pts[k].u)
  {
    if k in v.pts {
      assert EntryOk(v, k);
    }
  }

  /** Cells agree when entries name the same contents. */
  lemma CellsEqual(v: Vm, cells: map<Key, Cell>)
    requires Entries(v)
    requires forall k :: k in cells <==> k in v.pts
    requires forall k :: k in v.pts ==> v.pts[k].ppn in v.mem && cells[k] == Cell(v.mem[v.pts[k].ppn], v.pts[k].u)
    ensures Cells(v) == cells
  {
    forall k
      ensures k in Cells(v) <==> k in cells
      ensures k in cells ==> Cells(v)[k] == cells[k]
    {
      CellAt(v, k);
    }
  }

  // ---------- Effect of each page operation ----------

  lemma MapFreshCells(v: Vm, k: Key, page: Page, u: bool, sh: bool)
    requires Entries(v) && k !in v.pts && v.free != []
    ensures var v' := MapFresh(Popped(v), k, v.free[0], page, u, sh);
            Entries(v') && Cells(v') == Cells(v)[k := Cell(page, u)]
  {
    var v' := MapFresh(Popped(v), k, v.free[0], page, u, sh);
    MapFreshEntries(v, k, page, u, sh);
    hide Entries;
    forall y
      ensures y in v.pts <==> y in Cells(v)
      ensures y in v.pts ==> v.pts[y].ppn in v.mem && v.pts[y].ppn != v.free[0] && Cells(v)[y] == Cell(v.mem[v.pts[y].ppn], v.pts[y].u)
    {
      CellAt(v, y);
      if y in v.pts {
        MappedCount(v, y);
      }
    }
    hide Cells;
    CellsEqual(v', Cells(v)[k := Cell(page, u)]);
  }

  lemma ShareCells(v: Vm, k: Key, c: Key)
    requires Entries(v) && k in v.pts && c !in v.pts
    ensures v.pts[k].ppn in v.count && Entries(Share(v, k, c))
    ensures k in Cells(v) && Cells(Share(v, k, c)) == Cells(v)[c := Cells(v)[k]]
  {
    ShareEntries(v, k, c);
    hide Entries;
    forall y
      ensures y in v.pts <==> y in Cells(v)
      ensures y in v.pts ==> v.pts[y].ppn in v.mem && Cells(v)[y] == Cell(v.mem[v.pts[y].ppn], v.pts[y].u)
    {
      CellAt(v, y);
    }
    hide Cells;
    CellsEqual(Share(v, k, c), Cells(v)[c := Cells(v)[k]]);
  }

  lemma CowUnmapCells(v: Vm, k: Key)
    requires Entries(v) && k in v.pts
    ensures v.pts[k].ppn in v.count && Entries(CowUnmap(v, k))
    ensures Cells(CowUnmap(v, k)) == Cells(v) - {k}
  {
    CowUnmapEntries(v, k);
    var v' := CowUnmap(v, k);
    forall y
      ensures y in v.pts <==> y in Cells(v)
      ensures y in v.pts ==> v.pts[y].ppn in v.mem && Cells(v)[y] == Cell(v.mem[v.pts[y].ppn], v.pts[y].u)
      ensures y in v.pts && y != k ==> v'.mem[v.pts[y].ppn] == v.mem[v.pts[y].ppn]
    {
      CellAt(v, y);
      if y in v.pts && y != k && v.pts[y].ppn == v.pts[k].ppn {
        TwoMappers(v, k, y);
      }
    }
    hide Cells, Entries;
    CellsEqual(v', Cells(v) - {k});
  }

  lemma PlainUnmapCells(v: Vm, k: Key)
    requires Entries(v) && k in v.pts && Mappers(v.pts, v.pts[k].ppn) == {k}
    ensures Entries(PlainUnmap(v, k)) && Cells(PlainUnmap(v, k)) == Cells(v) - {k}
  {
    PlainUnmapExactly(v, k);
    var v' := PlainUnmap(v, k);
    forall y
      ensures y in v.pts <==> y in Cells(v)
      ensures y in v.pts ==> v.pts[y].ppn in v.mem && Cells(v)[y] == Cell(v.mem[v.pts[y].ppn], v.pts[y].u)
      ensures y in v.pts && y != k ==> v.pts[y].ppn != v.pts[k].ppn
    {
      CellAt(v, y);
      assert y in v.pts && v.pts[y].ppn == v.pts[k].ppn ==> y in Mappers(v.pts, v.pts[k].ppn);
    }
    hide Cells, Entries, Mappers;
    CellsEqual(v', Cells(v) - {k});
  }

  lemma FaultCells(v: Vm, k: Key, below: bool)
    requires Entries(v) && Fault(v, k, below).Some?
    ensures Entries(Fault(v, k, below).value) && Cells(Fault(v, k, below).value) == Cells(v)
  {
    FaultCorrect(v, k, below);
    var v' := Fault(v, k, below).value;
    hide Fault;
    forall y
      ensures y in v.pts <==> y in Cells(v)
      ensures y in v.pts ==> v.pts[y].ppn in v.mem && Cells(v)[y] == Cell(v.mem[v.pts[y].ppn], v.pts[y].u)
      ensures y in v.pts ==> v'.pts[y].ppn in v'.mem
    {
      CellAt(v, y);
      CellAt(v', y);
      assert y in v.pts.Keys <==> y in v'.pts.Keys;
    }
    hide Cells, Entries;
    CellsEqual(v', Cells(v));
  }

  /** A user store through a writable entry. */
  function Poke(v: Vm, k: Key, off: nat, b: Byte): Vm
    requires k in v.pts && v.pts[k].ppn in v.mem && off < PGSIZE
  {
    var p := v.pts[k].ppn;
    v.(mem := v.mem[p := v.mem[p][off := b]])
  }

  lemma PokeCells(v: Vm, k: Key, off: nat, b: Byte)
    requires Entries(v) && k in v.pts && v.pts[k].w && off < PGSIZE
    ensures v.pts[k].ppn in v.mem && Entries(Poke(v, k, off, b)) && k in Cells(v)
    ensures Cells(Poke(v, k, off, b)) == Cells(v)[k := Cells(v)[k].(page := Cells(v)[k].page[off := b])]
  {
    CellAt(v, k);
    var v' := Poke(v, k, off, b);
    forall y | y in v.pts
      ensures EntryOk(v', y) && (y != k ==> v.pts[y].ppn != v.pts[k].ppn)
    {
      assert EntryOk(v, y) && EntryOk(v, k);
      if v.pts[y].ppn == v.pts[k].ppn {
        OnlyMapper(v.pts, k, y);
      }
    }
    forall y
      ensures y in v.pts <==> y in Cells(v)
      ensures y in v.pts ==> v.pts[y].ppn in v.mem && Cells(v)[y] == Cell(v.mem[v.pts[y].ppn], v.pts[y].u)
    {
      CellAt(v, y);
    }
    hide Cells;
    CellsEqual(v', Cells(v)[k := Cells(v)[k].(page := Cells(v)[k].page[off := b])]);
  }

  // ---------- Whole address spaces ----------

  /** The loop of cow_shareuvm up to page n; a missing page is its panic. */
  function ShareUpTo(v: Vm, p: nat, c: nat, n: nat): Vm {
    if n == 0 then v
    else
      var w := ShareUpTo(v, p, c, n - 1);
      if (p, n - 1) in w.pts && w.pts[(p, n - 1)].ppn in w.count then Share(w, (p, n - 1), (c, n - 1)) else w
  }

  /** The first n pages of p copied to c. */
  function CopyCells(cells: map<Key, Cell>, p: nat, c: nat, n: nat): map<Key, Cell> {
    if n == 0 then cells
    else
      var r := CopyCells(cells, p, c, n - 1);
      if (p, n - 1) in cells then r[(c, n - 1) := cells[(p, n - 1)]] else r
  }

  lemma {:induction false} ShareAll(v: Vm, p: nat, c: nat, n: nat)
    requires Entries(v) && p != c
    requires forall i :: 0 <= i < n ==> (p, i) in v.pts && (c, i) !in v.pts
    ensures var v' := ShareUpTo(v, p, c, n);
            && Entries(v') && Cells(v') == CopyCells(Cells(v), p, c, n)
            && v'.sz == v.sz && v'.mem == v.mem && v'.free == v.free
            && forall k :: k in v'.pts <==> k in v.pts || (k.0 == c && k.1 < n)
  {
    hide Entries, Cells, Share;
    if n > 0 {
      ShareAll(v, p, c, n - 1);
      var w := ShareUpTo(v, p, c, n - 1);
      var k, x := (p, n - 1), (c, n - 1);
      CopyKeepsOthers(Cells(v), p, c, n - 1, k);
      CellAt(v, k);
      ShareCells(w, k, x);
      ShareShape(w, k, x);
      forall y
        ensures y in Share(w, k, x).pts <==> y in v.pts || (y.0 == c && y.1 < n)
      {
        assert y == x <==> y.0 == c && y.1 == n - 1;
      }
    }
  }

  lemma ShareShape(v: Vm, k: Key, c: Key)
    requires k in v.pts && v.pts[k].ppn in v.count
    ensures var v' := Share(v, k, c);
            && v'.sz == v.sz && v'.mem == v.mem && v'.free == v.free
            && forall y :: y in v'.pts <==> y in v.pts || y == c
  {
  }

  lemma {:induction false} CopyKeepsOthers(cells: map<Key, Cell>, p: nat, c: nat, n: nat, k: Key)
    ensures k in CopyCells(cells, p, c, n) <==> k in cells || (k.0 == c && k.1 < n && (p, k.1) in cells)
    ensures k in CopyCells(cells, p, c, n) ==>
            CopyCells(cells, p, c, n)[k] == if k.0 == c && k.1 < n && (p, k.1) in cells then cells[(p, k.1)] else cells[k]
  {
    if n > 0 {
      CopyKeepsOthers(cells, p, c, n - 1, k);
    }
  }

  /** The loop of cow_deallocuvm from page a up to page hi, with its skip over missing page tables. */
  function CowDrop(v: Vm, p: nat, pds: set<nat>, a: nat, hi: nat): Vm
    decreases if a < hi then hi - a else 0
  {
    if a >= hi then v
    else if PDX(a) !in pds then CowDrop(v, p, pds, a + NPTENTRIES, hi)
    else if (p, a) in v.pts && v.pts[(p, a)].ppn in v.count then CowDrop(CowUnmap(v, (p, a)), p, pds, a + 1, hi)
    else CowDrop(v, p, pds, a + 1, hi)
  }

  /** All cells but pages `gone` of process p. */
  function DropCells(cells: map<Key, Cell>, p: nat, gone: set<nat>): map<Key, Cell> {
    map k | k in cells && !(k.0 == p && k.1 in gone) :: cells[k]
  }

  lemma {:induction false} CowDropAll(v: Vm, p: nat, pds: set<nat>, a: nat, hi: nat)
    requires Entries(v)
    ensures Entries(CowDrop(v, p, pds, a, hi))
    ensures Cells(CowDrop(v, p, pds, a, hi)) == DropCells(Cells(v), p, Visited(pds, a, hi))
    ensures CowDrop(v, p, pds, a, hi).sz == v.sz
    decreases if a < hi then hi - a else 0
  {
    hide Entries, Cells;
    if a >= hi {
      assert DropCells(Cells(v), p, {}) == Cells(v);
    } else if PDX(a) !in pds {
      CowDropAll(v, p, pds, a + NPTENTRIES, hi);
    } else {
      CellAt(v, (p, a));
      var rest := Visited(pds, a + 1, hi);
      if (p, a) in v.pts {
        MappedCount(v, (p, a));
        CowUnmapCells(v, (p, a));
        CowDropAll(CowUnmap(v, (p, a)), p, pds, a + 1, hi);
        assert DropCells(Cells(v) - {(p, a)}, p, rest) == DropCells(Cells(v), p, {a} + rest);
      } else {
        CowDropAll(v, p, pds, a + 1, hi);
        assert DropCells(Cells(v), p, rest) == DropCells(Cells(v), p, {a} + rest);
      }
    }
  }

  // ---------- Plain deallocation on values ----------

  /** The loop of deallocuvm from page a up to page hi. */
  function PlainDrop(v: Vm, p: nat, pds: set<nat>, a: nat, hi: nat): Vm
    decreases if a < hi then hi - a else 0
  {
    if a >= hi then v
    else if PDX(a) !in pds then PlainDrop(v, p, pds, a + NPTENTRIES, hi)
    else if (p, a) in v.pts then PlainDrop(PlainUnmap(v, (p, a)), p, pds, a + 1, hi)
    else PlainDrop(v, p, pds, a + 1, hi)
  }

  /** Process p shares none of its pages from a to hi. */
  ghost predicate Unshared(v: Vm, p: nat, a: nat, hi: nat) {
    forall x :: a <= x < hi && (p, x) in v.pts ==> Mappers(v.pts, v.pts[(p, x)].ppn) == {(p, x)}
  }

  lemma UnsharedStays(v: Vm, p: nat, a: nat, hi: nat)
    requires Unshared(v, p, a, hi) && (p, a) in v.pts && a < hi
    ensures Unshared(PlainUnmap(v, (p, a)), p, a + 1, hi)
  {
    var w := PlainUnmap(v, (p, a));
    forall x | a + 1 <= x < hi && (p, x) in w.pts
      ensures Mappers(w.pts, w.pts[(p, x)].ppn) == {(p, x)}
    {
      MappersRemove(v.pts, (p, a), v.pts[(p, x)].ppn);
      assert Mappers(v.pts, v.pts[(p, x)].ppn) == {(p, x)};
    }
  }

  lemma {:induction false} PlainDropAll(v: Vm, p: nat, pds: set<nat>, a: nat, hi: nat)
    requires Entries(v) && Unshared(v, p, a, hi)
    ensures Entries(PlainDrop(v, p, pds, a, hi))
    ensures Cells(PlainDrop(v, p, pds, a, hi)) == DropCells(Cells(v), p, Visited(pds, a, hi))
    ensures PlainDrop(v, p, pds, a, hi).sz == v.sz && PlainDrop(v, p, pds, a, hi).count == v.count
    decreases if a < hi then hi - a else 0
  {
    hide Entries, Cells;
    if a >= hi {
      assert DropCells(Cells(v), p, {}) == Cells(v);
    } else if PDX(a) !in pds {
      PlainDropAll(v, p, pds, a + NPTENTRIES, hi);
    } else {
      CellAt(v, (p, a));
      var rest := Visited(pds, a + 1, hi);
      if (p, a) in v.pts {
        PlainUnmapCells(v, (p, a));
        UnsharedStays(v, p, a, hi);
        PlainDropAll(PlainUnmap(v, (p, a)), p, pds, a + 1, hi);
        assert DropCells(Cells(v) - {(p, a)}, p, rest) == DropCells(Cells(v), p, {a} + rest);
      } else {
        PlainDropAll(v, p, pds, a + 1, hi);
        assert DropCells(Cells(v), p, rest) == DropCells(Cells(v), p, {a} + rest);
      }
    }
  }

  /** The cells with zeroed user pages a .. n-1 of process p added. */
  function ZeroCells(cells: map<Key, Cell>, p: nat, a: nat, n: nat): map<Key, Cell>
    requires a <= n
  {
    if n == a then cells else ZeroCells(cells, p, a, n - 1)[(p, n - 1) := Cell(ZeroPage(), true)]
  }

  lemma ZeroNext(cells: map<Key, Cell>, p: nat, a: nat, n: nat)
    requires a <= n
    ensures ZeroCells(cells, p, a, n + 1) == ZeroCells(cells, p, a, n)[(p, n) := Cell(ZeroPage(), true)]
  {
  }

  /** A page with counter 1 has its entry as the only mapping. */
  lemma SoleMapper(v: Vm, k: Key)
    requires Entries(v) && k in v.pts && v.pts[k].ppn in v.count && v.count[v.pts[k].ppn] == 1
    ensures Mappers(v.pts, v.pts[k].ppn) == {k}
  {
    assert EntryOk(v, k);
    var m := Mappers(v.pts, v.pts[k].ppn);
    forall x | x in m
      ensures x == k
    {
      OnlyMapper(v.pts, k, x);
    }
  }

  lemma PlainUnmapPool(v: Vm, k: Key)
    requires Entries(v) && k in v.pts && Mappers(v.pts, v.pts[k].ppn) == {k}
    ensures Pool(PlainUnmap(v, k)) == Pool(v)
  {
    var v', p := PlainUnmap(v, k), v.pts[k].ppn;
    forall x
      ensures x in Pool(v') <==> x in Pool(v)
    {
      assert k in v.pts && v.pts[k].ppn == p;
      if x in MappedPages(v.pts) && x != p {
        var y :| y in v.pts && v.pts[y].ppn == x;
        assert y in v'.pts && v'.pts[y].ppn == x;
      }
    }
  }

  lemma {:induction false} PlainDropPool(v: Vm, p: nat, pds: set<nat>, a: nat, hi: nat)
    requires Entries(v) && Unshared(v, p, a, hi)
    ensures Pool(PlainDrop(v, p, pds, a, hi)) == Pool(v)
    decreases if a < hi then hi - a else 0
  {
    hide Entries, Pool, PlainUnmap;
    if a < hi {
      if PDX(a) !in pds {
        PlainDropPool(v, p, pds, a + NPTENTRIES, hi);
      } else if (p, a) in v.pts {
        PlainUnmapCells(v, (p, a));
        PlainUnmapPool(v, (p, a));
        UnsharedStays(v, p, a, hi);
        PlainDropPool(PlainUnmap(v, (p, a)), p, pds, a + 1, hi);
      } else {
        PlainDropPool(v, p, pds, a + 1, hi);
      }
    }
  }

  // ---------- Growing ----------

  /** The loop of allocuvm up to page n, as far as the pool goes. */
  function GrowUpTo(v: Vm, p: nat, a: nat, n: nat): Vm
    requires a <= n
  {
    if n == a then v
    else
      var w := GrowUpTo(v, p, a, n - 1);
      if w.free == [] then w else MapFresh(Popped(w), (p, n - 1), w.free[0], ZeroPage(), true, false)
  }

  /** Enough free pages: the process sees zeroed pages, in entries of its own. */
  lemma {:induction false} GrowAll(v: Vm, p: nat, a: nat, n: nat)
    requires Entries(v) && a <= n && n - a <= |v.free| && forall i :: a <= i < n ==> (p, i) !in v.pts
    ensures var w := GrowUpTo(v, p, a, n);
            && Entries(w) && Cells(w) == ZeroCells(Cells(v), p, a, n) && Pool(w) == Pool(v)
            && w.sz == v.sz && |w.free| == |v.free| - (n - a)
            && Grown(v, w, p, a, n)
  {
    hide Entries, Cells, Pool, MapFresh, Popped, Grown;
    if n == a {
      GrownStart(v, p, a);
    } else {
      GrowAll(v, p, a, n - 1);
      var w := GrowUpTo(v, p, a, n - 1);
      GrownNot(v, w, p, a, n - 1);
      MapFreshCells(w, (p, n - 1), ZeroPage(), true, false);
      MapFreshPool(w, (p, n - 1), ZeroPage(), true, false);
      MapFreshShape(w, (p, n - 1));
      ZeroNext(Cells(v), p, a, n - 1);
      GrownMore(v, w, GrowUpTo(v, p, a, n), p, a, n - 1);
    }
  }

  /** The entries of w are those of v and writable ones for pages a .. n-1 of p. */
  ghost predicate Grown(v: Vm, w: Vm, p: nat, a: nat, n: nat) {
    && (forall k :: k in w.pts <==> k in v.pts || (k.0 == p && a <= k.1 < n))
    && forall i :: a <= i < n ==> (p, i) in w.pts && w.pts[(p, i)].w
  }

  lemma GrownStart(v: Vm, p: nat, a: nat)
    ensures Grown(v, v, p, a, a)
  {
  }

  lemma GrownNot(v: Vm, w: Vm, p: nat, a: nat, n: nat)
    requires Grown(v, w, p, a, n) && (p, n) !in v.pts
    ensures (p, n) !in w.pts
  {
  }

  lemma GrownMore(v: Vm, w: Vm, z: Vm, p: nat, a: nat, n: nat)
    requires Grown(v, w, p, a, n) && a <= n && (p, n) !in w.pts
    requires (forall y :: y in z.pts <==> y in w.pts || y == (p, n)) && z.pts[(p, n)].w
    requires forall y :: y in w.pts && y != (p, n) ==> z.pts[y] == w.pts[y]
    ensures Grown(v, z, p, a, n + 1)
  {
    forall y
      ensures y in z.pts <==> y in v.pts || (y.0 == p && a <= y.1 < n + 1)
    {
      assert y == (p, n) <==> y.0 == p && y.1 == n;
    }
    forall i | a <= i < n + 1
      ensures (p, i) in z.pts && z.pts[(p, i)].w
    {
      assert i < n ==> (p, i) in w.pts;
    }
  }

  lemma MapFreshShape(v: Vm, k: Key)
    requires v.free != []
    ensures var w := MapFresh(Popped(v), k, v.free[0], ZeroPage(), true, false);
            && w.sz == v.sz && |w.free| == |v.free| - 1 && (forall y :: y in w.pts <==> y in v.pts || y == k)
            && w.pts[k].w && forall y :: y in v.pts && y != k ==> w.pts[y] == v.pts[y]
  {
  }

  /** Writable entries are not shared. */
  lemma WritableUnshared(w: Vm, p: nat, a: nat, n: nat)
    requires Entries(w) && forall i :: a <= i < n && (p, i) in w.pts ==> w.pts[(p, i)].w
    ensures Unshared(w, p, a, n)
  {
    forall x | a <= x < n && (p, x) in w.pts
      ensures Mappers(w.pts, w.pts[(p, x)].ppn) == {(p, x)}
    {
      assert EntryOk(w, (p, x));
      SoleMapper(w, (p, x));
    }
  }

  /** The page tables of the first n pages. */
  function Tables(n: nat): set<nat> {
    set i | 0 <= i < n :: PDX(i)
  }

  /** With page tables from 0 on, a walk from page a up to page n visits them all. */
  lemma VisitsAll(pds: set<nat>, a: nat, n: nat)
    requires forall i :: 0 <= i < n ==> PDX(i) in pds
    ensures forall x: nat :: x in Visited(pds, a, n) <==> a <= x < n
  {
    forall x: nat
      ensures x in Visited(pds, a, n) <==> a <= x < n
    {
      VisitedExactly(pds, a, n, x);
      if a <= x < n {
        ContiguousMissesNothing(pds, n, a, n, x);
      }
    }
  }

  /** Too few free pages: the plain walk takes back exactly what was added. */
  lemma GrowUndone(v: Vm, p: nat, a: nat, n: nat)
    requires Entries(v) && a <= n && n - a <= |v.free| && forall i :: a <= i < n ==> (p, i) !in v.pts
    ensures var z := PlainDrop(GrowUpTo(v, p, a, n), p, Tables(n), a, n);
            Entries(z) && Cells(z) == Cells(v) && Pool(z) == Pool(v) && z.sz == v.sz && z.pts.Keys == v.pts.Keys
  {
    hide Entries, Pool, GrowUpTo, PlainDrop, Visited, Unshared;
    GrowAll(v, p, a, n);
    var w := GrowUpTo(v, p, a, n);
    WritableUnshared(w, p, a, n);
    PlainDropAll(w, p, Tables(n), a, n);
    PlainDropPool(w, p, Tables(n), a, n);
    VisitsAll(Tables(n), a, n);
    var z := PlainDrop(w, p, Tables(n), a, n);
    UndoneCells(v, w, z, p, a, n, Visited(Tables(n), a, n));
  }

  lemma UndoneCells(v: Vm, w: Vm, z: Vm, p: nat, a: nat, n: nat, gone: set<nat>)
    requires Entries(v) && Entries(w) && Entries(z) && a <= n && (forall i :: a <= i < n ==> (p, i) !in v.pts)
    requires Cells(w) == ZeroCells(Cells(v), p, a, n) && Cells(z) == DropCells(Cells(w), p, gone)
    requires forall x: nat :: x in gone <==> a <= x < n
    ensures Cells(z) == Cells(v) && z.pts.Keys == v.pts.Keys
  {
    hide Entries, Cells;
    forall k
      ensures k in Cells(z) <==> k in Cells(v)
      ensures k in Cells(z) ==> Cells(z)[k] == Cells(v)[k]
      ensures k in z.pts.Keys <==> k in v.pts.Keys
    {
      CellAt(v, k);
      CellAt(w, k);
      CellAt(z, k);
      ZeroAt(Cells(v), p, a, n, k);
    }
  }

  lemma {:induction false} ZeroAt(cells: map<Key, Cell>, p: nat, a: nat, n: nat, k: Key)
    requires a <= n
    ensures k in ZeroCells(cells, p, a, n) <==> k in cells || (k.0 == p && a <= k.1 < n)
    ensures k in ZeroCells(cells, p, a, n) ==>
            ZeroCells(cells, p, a, n)[k] == if k.0 == p && a <= k.1 < n then Cell(ZeroPage(), true) else cells[k]
  {
    if n > a {
      ZeroAt(cells, p, a, n - 1, k);
    }
  }
}
