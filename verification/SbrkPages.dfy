/**
 sbrk under malloc: growproc as umalloc.c meets it is growproc of the
 copy-on-write address spaces, and what it grants to the heap is mapped.
 */
module SbrkPages {
  import opened PageWalk
  import opened Cow
  import opened CowCells
  import opened CowRefinement
  import U = Umalloc

  /** growproc with n bytes more, or -n bytes less. */
  function Growproc(v: Vm, p: nat, n: int, pds: set<nat>): (Vm, Outcome)
    requires p in v.sz
  {
    if n > 0 then CowGrow(v, p, n) else CowShrink(v, p, -n, pds)
  }

  lemma GrowSizes(v: Vm, p: nat, n: nat)
    requires Inv(v) && p in v.sz
    ensures var (v', o) := CowGrow(v, p, n);
            v'.sz == if o == Done then v.sz[p := v.sz[p] + n] else v.sz
    ensures CowGrow(v, p, n).1 == Done <==> v.sz[p] + n < KERNBASE && Pages(v.sz[p] + n) - Pages(v.sz[p]) <= |v.free|
  {
    hide Pages, CowGrow, Entries, SizesOk, Cells, ZeroCells;
    GrowRefines(v, p, n);
    assert Abs(CowGrow(v, p, n).0).sz == CowGrow(v, p, n).0.sz;
  }

  lemma {:induction false} DropSizes(v: Vm, p: nat, pds: set<nat>, a: nat, hi: nat)
    ensures PlainDrop(v, p, pds, a, hi).sz == v.sz
    decreases hi - a
  {
    if a < hi {
      if PDX(a) !in pds {
        DropSizes(v, p, pds, a + NPTENTRIES, hi);
      } else {
        DropSizes(if (p, a) in v.pts then PlainUnmap(v, (p, a)) else v, p, pds, a + 1, hi);
      }
    }
  }

  /** sbrk succeeds for the heap exactly when growproc does, and the new size is the one the heap assumes. */
  lemma SbrkIsGrowproc(v: Vm, p: nat, brk: nat, n: int, pds: set<nat>)
    requires Inv(v) && p in v.sz && v.sz[p] == brk * U.HEADER && n % U.HEADER == 0
    ensures var (v', o) := Growproc(v, p, n, pds);
            && p in v'.sz
            && (o == Done <==> !U.SbrkFails(brk, n, |v.free|))
            && (if o == Done then v'.sz[p] % U.HEADER == 0 && U.Growproc(brk, n, |v.free|) == U.To(v'.sz[p] / U.HEADER) else v'.sz == v.sz)
  {
    hide Pages, Inv, CowGrow, PlainDrop;
    assert n == n / U.HEADER * U.HEADER;
    if n > 0 {
      GrowSizes(v, p, n);
    } else if n < 0 && -n <= v.sz[p] {
      DropSizes(v, p, pds, Pages(v.sz[p] + n), Pages(v.sz[p]));
    }
  }

  /** The process maps the page of every unit. */
  ghost predicate Mapped(v: Vm, p: nat, units: set<nat>) {
    forall u :: u in units ==> (p, u * U.HEADER / PGSIZE) in v.pts
  }

  lemma BelowIsMapped(v: Vm, p: nat, units: set<nat>)
    requires Inv(v) && p in v.sz && forall u :: u in units ==> u * U.HEADER < v.sz[p]
    ensures Mapped(v, p, units)
  {
    forall u | u in units
      ensures (p, u * U.HEADER / PGSIZE) in v.pts
    {
      PageOf(u * U.HEADER, v.sz[p]);
    }
  }

  lemma PageOf(x: nat, sz: nat)
    requires x < sz
    ensures x / PGSIZE < Pages(sz)
  {
  }

  /**
   Whatever the heap asks for, all that sbrk grants or leaves to it is mapped by
   the process, as long as a shrinking sbrk takes no shared page.
   */
  lemma GrantedIsMapped(v: Vm, p: nat, brk: nat, n: int, pds: set<nat>, granted: set<nat>)
    requires Inv(v) && p in v.sz && v.sz[p] == brk * U.HEADER && n % U.HEADER == 0
    requires forall u :: u in granted ==> u < brk
    requires n < 0 && n + v.sz[p] != 0 ==> Allowed(v, Shrink(p, -n, pds))
    ensures Mapped(Growproc(v, p, n, pds).0, p, U.SbrkLeaves(granted, brk, n, |v.free|))
  {
    hide Pages, Inv, CowGrow, CowShrink, Mapped;
    SbrkIsGrowproc(v, p, brk, n, pds);
    var v', units := Growproc(v, p, n, pds).0, U.SbrkLeaves(granted, brk, n, |v.free|);
    if n > 0 {
      GrowRefines(v, p, n);
      U.SbrkExactly(granted, brk, n, |v.free|);
      UnitsBelow(granted, brk, n, |v.free|, v'.sz[p]);
      BelowIsMapped(v', p, units);
    } else if n + v.sz[p] != 0 || n == 0 {
      ShrinkMaps(v, p, -n, pds);
      UnitsBelow(granted, brk, n, |v.free|, v'.sz[p]);
      BelowIsMapped(v', p, units);
    } else {
      assert units == {};
      assert Mapped(v', p, {}) by {
        NoneMapped(v', p);
      }
    }
  }

  lemma NoneMapped(v: Vm, p: nat)
    ensures Mapped(v, p, {})
  {
  }

  lemma ShrinkMaps(v: Vm, p: nat, n: nat, pds: set<nat>)
    requires Inv(v) && p in v.sz && (n > 0 ==> Allowed(v, Shrink(p, n, pds)))
    ensures Inv(CowShrink(v, p, n, pds).0)
  {
    hide Inv;
    if n > 0 {
      ShrinkRefines(v, p, n, pds);
    }
  }

  /** The units of the heap lie below the size. */
  lemma UnitsBelow(granted: set<nat>, brk: nat, n: int, free: nat, sz: nat)
    requires n % U.HEADER == 0 && forall u :: u in granted ==> u < brk
    requires if U.SbrkFails(brk, n, free) then n > 0 && sz == brk * U.HEADER
             else sz % U.HEADER == 0 && U.Growproc(brk, n, free) == U.To(sz / U.HEADER)
    ensures forall u :: u in U.SbrkLeaves(granted, brk, n, free) ==> u * U.HEADER < sz
  {
    hide Pages;
    assert n == n / U.HEADER * U.HEADER && (sz % U.HEADER == 0 ==> sz == sz / U.HEADER * U.HEADER);
  }
}
