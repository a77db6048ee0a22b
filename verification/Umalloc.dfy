/**
 The storage allocator of umalloc.c.  Addresses count in units of one Header,
 so that p + 1 is the next header slot.
 */
module Umalloc {
  import opened Blocks
  import opened PageWalk

  // The static header `base`; the heap lies above it.
  const BASE: nat := 1
  const HEADER: nat := 8

  datatype Header = Header(ptr: nat, size: nat)

  /** A block of n units at address a. */
  datatype Blk = Blk(a: nat, n: nat) {
    function End(): nat {
      a + n
    }

    predicate Covers(u: nat) {
      a <= u < a + n
    }
  }

  // ---------- The free list on values ----------

  /** Blocks in address order after the base, none empty and none overlapping. */
  ghost predicate Sorted(bs: seq<Blk>) {
    && |bs| >= 1 && bs[0] == Blk(BASE, 0)
    && (forall i :: 1 <= i < |bs| ==> bs[i].n >= 1 && bs[i].a > BASE)
    && forall i, j :: 0 <= i < j < |bs| ==> bs[i].End() <= bs[j].a
  }

  predicate Gap(bs: seq<Blk>, i: nat)
    requires i + 1 < |bs|
  {
    bs[i].End() < bs[i + 1].a
  }

  /** Sorted and fully coalesced: no two neighbours touch. */
  ghost predicate Ordered(bs: seq<Blk>) {
    Sorted(bs) && forall i :: 0 <= i < |bs| - 1 ==> Gap(bs, i)
  }

  function Next(bs: seq<Blk>, i: nat): (j: nat)
    requires i < |bs|
    ensures j < |bs|
  {
    if i + 1 < |bs| then i + 1 else 0
  }

  /** The header of block i holds its size and the address of its successor. */
  ghost predicate Linked(mem: map<nat, Header>, bs: seq<Blk>, i: nat)
    requires i < |bs|
  {
    bs[i].a in mem && mem[bs[i].a] == Header(bs[Next(bs, i)].a, bs[i].n)
  }

  /** The headers in memory form the circular list of the blocks. */
  ghost predicate Chain(mem: map<nat, Header>, bs: seq<Blk>) {
    forall i :: 0 <= i < |bs| ==> Linked(mem, bs, i)
  }

  ghost predicate IsFree(bs: seq<Blk>, u: nat) {
    exists i :: 0 <= i < |bs| && bs[i].Covers(u)
  }

  ghost predicate IsLive(live: map<nat, nat>, u: nat) {
    exists a :: a in live && Blk(a, live[a]).Covers(u)
  }

  /** Live blocks have their size in their header and do not overlap. */
  ghost predicate LiveOk(mem: map<nat, Header>, live: map<nat, nat>) {
    && (forall a :: a in live ==> live[a] >= 1 && a in mem && mem[a].size == live[a])
    && forall a, b :: a in live && b in live && a < b ==> a + live[a] <= b
  }

  /** Every unit obtained from sbrk is in exactly one free block or live block. */
  ghost predicate Partition(bs: seq<Blk>, live: map<nat, nat>, core: set<nat>) {
    && (forall u: nat :: u in core <==> IsFree(bs, u) || IsLive(live, u))
    && (forall u: nat :: !(IsFree(bs, u) && IsLive(live, u)))
    && forall u :: u in core ==> u > BASE
  }

  function Put(bs: seq<Blk>, k: nat, b: Blk): seq<Blk>
    requires k < |bs|
  {
    bs[..k + 1] + [b] + bs[k + 1..]
  }

  function Join(bs: seq<Blk>, i: nat): seq<Blk>
    requires i + 1 < |bs|
  {
    bs[..i] + [Blk(bs[i].a, bs[i].n + bs[i + 1].n)] + bs[i + 2..]
  }

  function JoinIfTouching(bs: seq<Blk>, i: nat): seq<Blk> {
    if i + 1 < |bs| && !Gap(bs, i) then Join(bs, i) else bs
  }

  /** free on values: insert after block k, then join the right and the left neighbour. */
  function Insert(bs: seq<Blk>, k: nat, b: Blk): seq<Blk>
    requires k < |bs|
  {
    JoinIfTouching(JoinIfTouching(Put(bs, k, b), k + 1), k)
  }

  function PutAt(bs: seq<Blk>, k: nat, b: Blk, i: nat): Blk
    requires k < |bs| && i <= |bs|
  {
    if i <= k then bs[i] else if i == k + 1 then b else bs[i - 1]
  }

  lemma PutPair(bs: seq<Blk>, k: nat, b: Blk, i: nat, j: nat)
    requires Sorted(bs) && k < |bs|
    requires bs[k].End() <= b.a && (k + 1 < |bs| ==> b.End() <= bs[k + 1].a)
    requires i < j <= |bs|
    ensures PutAt(bs, k, b, i).End() <= PutAt(bs, k, b, j).a
  {
  }

  lemma PutSorted(bs: seq<Blk>, k: nat, b: Blk)
    requires Sorted(bs) && k < |bs| && b.n >= 1 && b.a > BASE
    requires bs[k].End() <= b.a && (k + 1 < |bs| ==> b.End() <= bs[k + 1].a)
    ensures Sorted(Put(bs, k, b))
  {
    var r := Put(bs, k, b);
    forall i | 0 <= i < |r|
      ensures r[i] == PutAt(bs, k, b, i)
    {
    }
    forall i, j | 0 <= i < j < |r|
      ensures r[i].End() <= r[j].a
    {
      PutPair(bs, k, b, i, j);
    }
  }

  lemma JoinSorted(bs: seq<Blk>, i: nat)
    requires Sorted(bs) && 1 <= i && i + 1 < |bs| && !Gap(bs, i)
    ensures Sorted(Join(bs, i)) && |Join(bs, i)| == |bs| - 1
  {
    var r := Join(bs, i);
    assert r[i].End() == bs[i + 1].End();
    assert forall j :: 0 <= j < i ==> r[j] == bs[j];
    assert forall j :: i < j < |r| ==> r[j] == bs[j + 1];
  }

  lemma JoinGap(bs: seq<Blk>, i: nat, j: nat)
    requires Sorted(bs) && 1 <= i && i + 1 < |bs| && !Gap(bs, i) && j + 1 < |Join(bs, i)|
    ensures Gap(Join(bs, i), j) <==> Gap(bs, if j < i then j else j + 1)
  {
  }

  lemma JoinUnits(bs: seq<Blk>, i: nat, u: nat)
    requires i + 1 < |bs| && bs[i].End() == bs[i + 1].a
    ensures IsFree(Join(bs, i), u) <==> IsFree(bs, u)
  {
    var r := Join(bs, i);
    if IsFree(bs, u) {
      var j :| 0 <= j < |bs| && bs[j].Covers(u);
      assert r[if j <= i then j else j - 1].Covers(u);
    }
    if IsFree(r, u) {
      var j :| 0 <= j < |r| && r[j].Covers(u);
      if j != i {
        assert bs[if j < i then j else j + 1].Covers(u);
      } else {
        assert bs[i].Covers(u) || bs[i + 1].Covers(u);
      }
    }
  }

  lemma PutUnits(bs: seq<Blk>, k: nat, b: Blk, u: nat)
    requires k < |bs|
    ensures IsFree(Put(bs, k, b), u) <==> IsFree(bs, u) || b.Covers(u)
  {
    var r := Put(bs, k, b);
    assert r[k + 1] == b;
    if IsFree(bs, u) {
      var j :| 0 <= j < |bs| && bs[j].Covers(u);
      assert r[if j <= k then j else j + 1].Covers(u);
    }
    if IsFree(r, u) && !b.Covers(u) {
      var j :| 0 <= j < |r| && r[j].Covers(u);
      assert bs[if j <= k then j else j - 1].Covers(u);
    }
  }

  ghost predicate GapsExcept(bs: seq<Blk>, at: set<nat>) {
    Sorted(bs) && forall j :: 0 <= j < |bs| - 1 && j !in at ==> Gap(bs, j)
  }

  lemma PutGaps(bs: seq<Blk>, k: nat, b: Blk)
    requires FitsAfter(bs, k, b)
    ensures GapsExcept(Put(bs, k, b), {k, k + 1})
  {
    PutSorted(bs, k, b);
    var r := Put(bs, k, b);
    assert forall j :: 0 <= j < k ==> Gap(r, j) == Gap(bs, j);
    forall j | k + 2 <= j < |r| - 1
      ensures Gap(r, j)
    {
      assert Gap(bs, j - 1);
    }
  }

  lemma BaseGap(bs: seq<Blk>)
    requires Sorted(bs) && |bs| > 1
    ensures Gap(bs, 0)
  {
  }

  /** Joining closes one gap exception; the base never touches its neighbour. */
  lemma JoinGaps(bs: seq<Blk>, at: set<nat>, i: nat)
    requires GapsExcept(bs, at + {i}) && forall j :: j in at ==> j < i
    ensures GapsExcept(JoinIfTouching(bs, i), at)
  {
    hide Sorted, Join, Gap;
    if i + 1 < |bs| && !Gap(bs, i) {
      BaseGap(bs);
      JoinSorted(bs, i);
      forall j | 0 <= j < |bs| - 2 && j !in at
        ensures Gap(Join(bs, i), j)
      {
        JoinGap(bs, i, j);
      }
    }
  }

  lemma JoinKeepsUnits(bs: seq<Blk>, i: nat)
    requires Sorted(bs)
    ensures forall u :: IsFree(JoinIfTouching(bs, i), u) <==> IsFree(bs, u)
  {
    if i + 1 < |bs| && !Gap(bs, i) {
      assert bs[i].End() == bs[i + 1].a;
      forall u
        ensures IsFree(Join(bs, i), u) <==> IsFree(bs, u)
      {
        JoinUnits(bs, i, u);
      }
    }
  }

  lemma JoinKeepsFront(bs: seq<Blk>, i: nat, k: nat)
    requires k <= i && k < |bs|
    ensures k < |JoinIfTouching(bs, i)| && JoinIfTouching(bs, i)[k].a == bs[k].a
  {
  }

  /** Inserting a block into a coalesced list leaves a coalesced list of the same units plus the block's. */
  lemma InsertOrdered(bs: seq<Blk>, k: nat, b: Blk)
    requires FitsAfter(bs, k, b)
    ensures Ordered(Insert(bs, k, b))
    ensures k < |Insert(bs, k, b)| && Insert(bs, k, b)[k].a == bs[k].a
    ensures forall u :: IsFree(Insert(bs, k, b), u) <==> IsFree(bs, u) || b.Covers(u)
  {
    hide Sorted, JoinIfTouching, IsFree;
    var r0 := Put(bs, k, b);
    PutGaps(bs, k, b);
    var r1 := JoinIfTouching(r0, k + 1);
    assert {k} + {k + 1} == {k, k + 1} && {} + {k} == {k};
    JoinGaps(r0, {k}, k + 1);
    JoinGaps(r1, {}, k);
    JoinKeepsFront(r0, k + 1, k);
    JoinKeepsFront(r1, k, k);
    JoinKeepsUnits(r0, k + 1);
    JoinKeepsUnits(r1, k);
    forall u
      ensures IsFree(r0, u) <==> IsFree(bs, u) || b.Covers(u)
    {
      PutUnits(bs, k, b, u);
    }
  }

  // ---------- The free list in memory ----------

  ghost predicate Ascending(bs: seq<Blk>) {
    forall i, j :: 0 <= i < j < |bs| ==> bs[i].a < bs[j].a
  }

  lemma SortedAscending(bs: seq<Blk>)
    requires Sorted(bs)
    ensures Ascending(bs)
  {
  }

  /** The two header writes that link block b in after block k. */
  lemma ChainPut(mem: map<nat, Header>, bs: seq<Blk>, k: nat, b: Blk)
    requires k < |bs| && Chain(mem, bs) && Ascending(Put(bs, k, b))
    ensures Chain(mem[b.a := Header(bs[Next(bs, k)].a, b.n)][bs[k].a := Header(b.a, bs[k].n)], Put(bs, k, b))
  {
    var r := Put(bs, k, b);
    var m := mem[b.a := Header(bs[Next(bs, k)].a, b.n)][bs[k].a := Header(b.a, bs[k].n)];
    assert r[k] == bs[k] && r[k + 1] == b;
    forall i | 0 <= i < |r|
      ensures Linked(m, r, i)
    {
      if i < k {
        assert Linked(mem, bs, i) && r[i] == bs[i];
      } else if i > k + 1 {
        assert Linked(mem, bs, i - 1) && r[i] == bs[i - 1];
      }
    }
  }

  /** The one header write that absorbs block i + 1 into block i. */
  lemma ChainJoin(mem: map<nat, Header>, bs: seq<Blk>, i: nat)
    requires Chain(mem, bs) && Ascending(bs) && i + 1 < |bs|
    ensures Chain(mem[bs[i].a := Header(bs[Next(bs, i + 1)].a, bs[i].n + bs[i + 1].n)], Join(bs, i))
  {
    var r := Join(bs, i);
    var m := mem[bs[i].a := Header(bs[Next(bs, i + 1)].a, bs[i].n + bs[i + 1].n)];
    assert r[i] == Blk(bs[i].a, bs[i].n + bs[i + 1].n);
    forall x | 0 <= x < |r|
      ensures Linked(m, r, x)
    {
      if x < i {
        assert Linked(mem, bs, x) && r[x] == bs[x];
      } else if x > i {
        assert Linked(mem, bs, x + 1) && r[x] == bs[x + 1];
      }
    }
  }

  /** The header writes of free, in the order of umalloc.c:33-42. */
  function Splice(mem: map<nat, Header>, p: nat, bp: nat): map<nat, Header>
    requires p in mem && bp in mem && mem[p].ptr in mem
  {
    var q := mem[p].ptr;
    var m := if bp + mem[bp].size == q then mem[bp := Header(mem[q].ptr, mem[bp].size + mem[q].size)]
             else mem[bp := mem[bp].(ptr := q)];
    if p + m[p].size == bp then m[p := Header(m[bp].ptr, m[p].size + m[bp].size)]
    else m[p := m[p].(ptr := bp)]
  }

  /** Block b can go right after block k of the list. */
  ghost predicate FitsAfter(bs: seq<Blk>, k: nat, b: Blk) {
    && Ordered(bs) && k < |bs| && b.n >= 1 && b.a > BASE
    && bs[k].End() <= b.a && (k + 1 < |bs| ==> b.End() <= bs[k + 1].a)
  }

  /** Block b after it took over its right neighbour, if they touch. */
  function Grown(bs: seq<Blk>, k: nat, b: Blk): Blk
    requires k < |bs|
  {
    if k + 1 < |bs| && b.End() == bs[k + 1].a then Blk(b.a, b.n + bs[k + 1].n) else b
  }

  /** The successor of the grown block. */
  function After(bs: seq<Blk>, k: nat, b: Blk): nat
    requires k < |bs|
  {
    if k + 1 < |bs| && b.End() == bs[k + 1].a then bs[Next(bs, k + 1)].a else bs[Next(bs, k)].a
  }

  lemma RightAscending(bs: seq<Blk>, k: nat, b: Blk)
    requires FitsAfter(bs, k, b)
    ensures Ascending(JoinIfTouching(Put(bs, k, b), k + 1))
  {
    var r := Put(bs, k, b);
    PutGaps(bs, k, b);
    assert Sorted(r);
    hide Sorted, Ascending, FitsAfter;
    if k + 2 < |r| && !Gap(r, k + 1) {
      JoinSorted(r, k + 1);
    }
    SortedAscending(JoinIfTouching(r, k + 1));
  }

  lemma RightShape(bs: seq<Blk>, k: nat, b: Blk)
    requires FitsAfter(bs, k, b)
    ensures var r := JoinIfTouching(Put(bs, k, b), k + 1);
            && k + 1 < |r| && r[k] == bs[k] && r[k + 1] == Grown(bs, k, b)
            && r[Next(r, k + 1)].a == After(bs, k, b)
            && Ascending(r)
  {
    RightAscending(bs, k, b);
    assert k + 1 < |bs| ==> b.End() <= bs[k + 1].a;
    assert bs[0].a == BASE;
    hide Ordered, Ascending;
    var r := JoinIfTouching(Put(bs, k, b), k + 1);
    assert r[k] == bs[k];
    assert r[k + 1] == Grown(bs, k, b);
  }

  /** The block on the right is joined. */
  lemma RightTouching(mem: map<nat, Header>, bs: seq<Blk>, k: nat, b: Blk, r: seq<Blk>)
    requires k + 1 < |bs| && b.End() == bs[k + 1].a && bs[k].a < b.a && Ascending(r)
    requires k + 2 < |r| && r[k + 1] == b && r[k + 2] == bs[k + 1] && r[Next(r, k + 2)].a == bs[Next(bs, k + 1)].a
    requires Chain(mem[b.a := Header(bs[k + 1].a, b.n)][bs[k].a := Header(b.a, bs[k].n)], r)
    ensures Chain(mem[b.a := Header(After(bs, k, b), Grown(bs, k, b).n)][bs[k].a := Header(b.a, bs[k].n)],
                  JoinIfTouching(r, k + 1))
  {
    hide Chain, Ascending, Join;
    var m0 := mem[b.a := Header(bs[k + 1].a, b.n)][bs[k].a := Header(b.a, bs[k].n)];
    ChainJoin(m0, r, k + 1);
    Reorder(mem, b.a, Header(bs[k + 1].a, b.n), bs[k].a, Header(b.a, bs[k].n), Header(After(bs, k, b), Grown(bs, k, b).n));
  }

  lemma PutAscending(bs: seq<Blk>, k: nat, b: Blk)
    requires FitsAfter(bs, k, b)
    ensures Ascending(Put(bs, k, b)) && bs[k].a < b.a
  {
    PutGaps(bs, k, b);
    SortedAscending(Put(bs, k, b));
    assert Put(bs, k, b)[k] == bs[k] && Put(bs, k, b)[k + 1] == b;
  }

  lemma PutPlaces(bs: seq<Blk>, k: nat, b: Blk)
    requires k + 1 < |bs|
    ensures var r := Put(bs, k, b);
            && |r| == |bs| + 1 && r[k + 1] == b && r[k + 2] == bs[k + 1] && r[Next(r, k + 2)].a == bs[Next(bs, k + 1)].a
  {
  }

  lemma RightChain(mem: map<nat, Header>, bs: seq<Blk>, k: nat, b: Blk)
    requires FitsAfter(bs, k, b) && Chain(mem, bs)
    ensures Chain(mem[b.a := Header(After(bs, k, b), Grown(bs, k, b).n)][bs[k].a := Header(b.a, bs[k].n)],
                  JoinIfTouching(Put(bs, k, b), k + 1))
  {
    hide Chain, Ascending, Ordered, GapsExcept, Sorted, Put;
    PutAscending(bs, k, b);
    ChainPut(mem, bs, k, b);
    if k + 1 < |bs| && b.End() == bs[k + 1].a {
      PutPlaces(bs, k, b);
      RightTouching(mem, bs, k, b, Put(bs, k, b));
    } else {
      RightApart(bs, k, b);
    }
  }

  /** Nothing to join on the right. */
  lemma RightApart(bs: seq<Blk>, k: nat, b: Blk)
    requires FitsAfter(bs, k, b) && !(k + 1 < |bs| && b.End() == bs[k + 1].a)
    ensures JoinIfTouching(Put(bs, k, b), k + 1) == Put(bs, k, b)
    ensures Header(After(bs, k, b), Grown(bs, k, b).n) == Header(bs[Next(bs, k)].a, b.n)
  {
  }

  /** What Splice leaves in the two headers it writes. */
  lemma SpliceValue(mem: map<nat, Header>, p: nat, bp: nat, n: nat, size: nat)
    requires p in mem && bp in mem && mem[p].ptr in mem && p != bp && mem[p].ptr != bp
    requires var q := mem[p].ptr;
             Header(n, size) == if bp + mem[bp].size == q then Header(mem[q].ptr, mem[bp].size + mem[q].size) else Header(q, mem[bp].size)
    ensures Splice(mem, p, bp) ==
            mem[bp := Header(n, size)][p := if p + mem[p].size == bp then Header(n, mem[p].size + size) else Header(bp, mem[p].size)]
  {
  }

  lemma LinkFacts(mem: map<nat, Header>, bs: seq<Blk>, k: nat, b: Blk)
    requires FitsAfter(bs, k, b) && Chain(mem, bs) && b.a in mem && mem[b.a].size == b.n
    ensures var p, q := bs[k].a, bs[Next(bs, k)].a;
            && p in mem && mem[p] == Header(q, bs[k].n) && q in mem && p < b.a && q != b.a
            && Header(After(bs, k, b), Grown(bs, k, b).n) ==
               if b.a + mem[b.a].size == q then Header(mem[q].ptr, mem[b.a].size + mem[q].size) else Header(q, mem[b.a].size)
  {
    assert Linked(mem, bs, k) && Linked(mem, bs, Next(bs, k));
  }

  /** On a coalesced list, Splice builds the chain of Insert. */
  lemma SpliceInserts(mem: map<nat, Header>, bs: seq<Blk>, k: nat, b: Blk)
    requires FitsAfter(bs, k, b) && Chain(mem, bs)
    requires b.a in mem && mem[b.a].size == b.n
    ensures bs[k].a in mem && mem[bs[k].a].ptr in mem
    ensures Chain(Splice(mem, bs[k].a, b.a), Insert(bs, k, b))
  {
    hide Ordered, Chain, Ascending, Put, Splice, After;
    LinkFacts(mem, bs, k, b);
    RightShape(bs, k, b);
    RightChain(mem, bs, k, b);
    var p, c, n := bs[k].a, Grown(bs, k, b), After(bs, k, b);
    SpliceValue(mem, p, b.a, n, c.n);
    if bs[k].End() == b.a {
      Overwrite(mem[b.a := Header(n, c.n)], p, Header(b.a, bs[k].n), Header(n, bs[k].n + c.n));
      ChainJoin(mem[b.a := Header(n, c.n)][p := Header(b.a, bs[k].n)], JoinIfTouching(Put(bs, k, b), k + 1), k);
    }
  }

  lemma Overwrite(m: map<nat, Header>, a: nat, x: Header, y: Header)
    ensures m[a := x][a := y] == m[a := y]
  {
  }

  lemma Reorder(m: map<nat, Header>, a: nat, x: Header, b: nat, y: Header, z: Header)
    requires a != b
    ensures m[a := x][b := y][a := z] == m[a := z][b := y]
  {
  }

  // ---------- Taking a block out ----------

  /** malloc on values: the whole of block i, or its last n units. */
  function Carve(bs: seq<Blk>, i: nat, n: nat): seq<Blk>
    requires i < |bs|
  {
    if bs[i].n <= n then bs[..i] + bs[i + 1..] else bs[i := Blk(bs[i].a, bs[i].n - n)]
  }

  function Carved(bs: seq<Blk>, i: nat, n: nat): Blk
    requires i < |bs|
  {
    if bs[i].n <= n then bs[i] else Blk(bs[i].End() - n, n)
  }

  lemma CarveOrdered(bs: seq<Blk>, i: nat, n: nat)
    requires Ordered(bs) && 1 <= i < |bs| && 1 <= n <= bs[i].n
    ensures Ordered(Carve(bs, i, n))
    ensures Carved(bs, i, n).n == n && Carved(bs, i, n).a > BASE
  {
    var r := Carve(bs, i, n);
    assert Sorted(r);
    forall j | 0 <= j < |r| - 1
      ensures Gap(r, j)
    {
      if bs[i].n == n && j >= i {
        assert Gap(bs, j + 1);
      } else {
        assert Gap(bs, j);
      }
    }
  }

  lemma CarveUnits(bs: seq<Blk>, i: nat, n: nat, u: nat)
    requires Ordered(bs) && 1 <= i < |bs| && 1 <= n <= bs[i].n
    ensures IsFree(bs, u) <==> IsFree(Carve(bs, i, n), u) || Carved(bs, i, n).Covers(u)
  {
    var r := Carve(bs, i, n);
    hide Ordered;
    if bs[i].n == n {
      PutUnits(r, i - 1, bs[i], u);
      assert Put(r, i - 1, bs[i]) == bs;
    } else {
      var s := Put(r, i, Carved(bs, i, n));
      PutUnits(r, i, Carved(bs, i, n), u);
      assert Join(s, i) == bs;
      JoinUnits(s, i, u);
    }
  }

  lemma CarveApart(bs: seq<Blk>, i: nat, n: nat, u: nat)
    requires Ordered(bs) && 1 <= i < |bs| && 1 <= n <= bs[i].n
    ensures !(IsFree(Carve(bs, i, n), u) && Carved(bs, i, n).Covers(u))
  {
    var r := Carve(bs, i, n);
    if IsFree(r, u) {
      var j :| 0 <= j < |r| && r[j].Covers(u);
      if bs[i].n == n {
        var j' := if j < i then j else j + 1;
        assert r[j] == bs[j'] && j' != i;
        assert if j' < i then bs[j'].End() <= bs[i].a else bs[i].End() <= bs[j'].a;
      } else if j != i {
        assert r[j] == bs[j];
      }
    }
  }

  /** malloc's header write when a block is used up: its predecessor h skips it. */
  lemma UnlinkChain(mem: map<nat, Header>, bs: seq<Blk>, h: nat)
    requires Ascending(bs) && Chain(mem, bs) && h + 1 < |bs|
    ensures bs[h + 1].a in mem
    ensures Chain(mem[bs[h].a := Header(mem[bs[h + 1].a].ptr, bs[h].n)], bs[..h + 1] + bs[h + 2..])
  {
    assert Linked(mem, bs, h) && Linked(mem, bs, h + 1);
    var r, m := bs[..h + 1] + bs[h + 2..], mem[bs[h].a := Header(mem[bs[h + 1].a].ptr, bs[h].n)];
    forall j | 0 <= j < |r|
      ensures Linked(m, r, j)
    {
      if j > h {
        assert Linked(mem, bs, j + 1) && r[j] == bs[j + 1];
      } else {
        assert Linked(mem, bs, j) && r[j] == bs[j];
      }
    }
  }

  /** malloc's header write when a block is split: it keeps its front. */
  lemma ShrinkChain(mem: map<nat, Header>, bs: seq<Blk>, i: nat, n: nat)
    requires Ascending(bs) && Chain(mem, bs) && i < |bs| && n <= bs[i].n
    ensures bs[i].a in mem
    ensures Chain(mem[bs[i].a := mem[bs[i].a].(size := bs[i].n - n)], bs[i := Blk(bs[i].a, bs[i].n - n)])
  {
    assert Linked(mem, bs, i);
    var r, m := bs[i := Blk(bs[i].a, bs[i].n - n)], mem[bs[i].a := mem[bs[i].a].(size := bs[i].n - n)];
    forall j | 0 <= j < |r|
      ensures Linked(m, r, j)
    {
      assert Linked(mem, bs, j);
    }
  }

  /** Headers outside the list do not matter to it. */
  lemma ChainFrame(mem: map<nat, Header>, bs: seq<Blk>, a: nat, x: Header)
    requires Chain(mem, bs) && forall i :: 0 <= i < |bs| ==> bs[i].a != a
    ensures Chain(mem[a := x], bs)
  {
    var m := mem[a := x];
    forall i | 0 <= i < |bs|
      ensures Linked(m, bs, i)
    {
      assert Linked(mem, bs, i);
    }
  }

  // ---------- The heap invariant ----------

  /**
   The free list is circular in memory, address-ordered with one wrap and fully
   coalesced; live blocks are disjoint from it and from each other; and every
   unit that sbrk gave is in exactly one block.
   */
  ghost predicate HeapOk(mem: map<nat, Header>, bs: seq<Blk>, live: map<nat, nat>, core: set<nat>) {
    && Ordered(bs) && Chain(mem, bs) && LiveOk(mem, live) && Partition(bs, live, core)
    && forall u :: u in core ==> u in mem
  }

  lemma LiveUnit(live: map<nat, nat>, a: nat)
    requires a in live && live[a] >= 1
    ensures IsLive(live, a) && IsLive(live, a + live[a] - 1)
  {
    assert Blk(a, live[a]).Covers(a);
    assert Blk(a, live[a]).Covers(a + live[a] - 1);
  }

  lemma FreeUnit(bs: seq<Blk>, i: nat)
    requires i < |bs| && bs[i].n >= 1
    ensures IsFree(bs, bs[i].a)
  {
    assert bs[i].Covers(bs[i].a);
  }

  /** A live block lies between the free blocks around its address. */
  lemma LiveFits(bs: seq<Blk>, live: map<nat, nat>, core: set<nat>, k: nat, a: nat)
    requires Ordered(bs) && Partition(bs, live, core) && a in live && live[a] >= 1
    requires k < |bs| && bs[k].a < a && (k + 1 < |bs| ==> a < bs[k + 1].a)
    ensures FitsAfter(bs, k, Blk(a, live[a]))
  {
    LiveUnit(live, a);
    assert bs[k].Covers(a) ==> IsFree(bs, a);
    if k + 1 < |bs| {
      FreeUnit(bs, k + 1);
      var q := bs[k + 1].a;
      assert Blk(a, live[a]).Covers(q) ==> IsLive(live, q);
    }
  }

  /** No header on the free list belongs to a live block. */
  lemma ListApart(bs: seq<Blk>, live: map<nat, nat>, core: set<nat>, i: nat)
    requires Ordered(bs) && Partition(bs, live, core) && i < |bs|
    ensures !IsLive(live, bs[i].a)
  {
    if i > 0 {
      FreeUnit(bs, i);
    }
    assert IsLive(live, BASE) ==> BASE in core;
  }

  lemma {:induction false} LiveWithout(live: map<nat, nat>, a: nat, u: nat)
    requires a in live && forall x, y :: x in live && y in live && x < y ==> x + live[x] <= y
    ensures IsLive(live - {a}, u) <==> IsLive(live, u) && !Blk(a, live[a]).Covers(u)
  {
    if IsLive(live, u) && !Blk(a, live[a]).Covers(u) {
      var x :| x in live && Blk(x, live[x]).Covers(u);
      assert x in live - {a};
    }
  }

  lemma LiveWith(live: map<nat, nat>, a: nat, n: nat, u: nat)
    requires a !in live
    ensures IsLive(live[a := n], u) <==> IsLive(live, u) || Blk(a, n).Covers(u)
  {
    var live' := live[a := n];
    if IsLive(live, u) {
      var x :| x in live && Blk(x, live[x]).Covers(u);
      assert x in live' && Blk(x, live'[x]).Covers(u);
    }
    if Blk(a, n).Covers(u) {
      assert a in live' && Blk(a, live'[a]).Covers(u);
    }
  }

  /** Contents of live blocks that survive from one memory to the next. */
  ghost predicate Untouched(mem: map<nat, Header>, mem': map<nat, Header>, live: map<nat, nat>) {
    forall u :: u in mem && IsLive(live, u) ==> u in mem' && mem'[u] == mem[u]
  }

  lemma FreePartition(bs: seq<Blk>, live: map<nat, nat>, core: set<nat>, k: nat, bp: nat)
    requires Ordered(bs) && Partition(bs, live, core) && bp in live
    requires forall x, y :: x in live && y in live && x < y ==> x + live[x] <= y
    requires FitsAfter(bs, k, Blk(bp, live[bp]))
    ensures Partition(Insert(bs, k, Blk(bp, live[bp])), live - {bp}, core)
  {
    hide IsFree, Insert, FitsAfter;
    InsertOrdered(bs, k, Blk(bp, live[bp]));
    forall u: nat
      ensures IsLive(live - {bp}, u) <==> IsLive(live, u) && !Blk(bp, live[bp]).Covers(u)
    {
      LiveWithout(live, bp, u);
    }
    hide IsLive;
    assert forall u: nat :: Blk(bp, live[bp]).Covers(u) ==> IsLive(live, u);
  }

  /** free keeps the heap in order and touches no other live block. */
  lemma FreeKeeps(mem: map<nat, Header>, bs: seq<Blk>, live: map<nat, nat>, core: set<nat>, k: nat, bp: nat)
    requires HeapOk(mem, bs, live, core) && bp in live
    requires k < |bs| && bs[k].a < bp && (k + 1 < |bs| ==> bp < bs[k + 1].a)
    ensures FitsAfter(bs, k, Blk(bp, live[bp]))
    ensures bs[k].a in mem && bp in mem && mem[bs[k].a].ptr in mem
    ensures HeapOk(Splice(mem, bs[k].a, bp), Insert(bs, k, Blk(bp, live[bp])), live - {bp}, core)
    ensures Untouched(mem, Splice(mem, bs[k].a, bp), live - {bp})
  {
    var b, p := Blk(bp, live[bp]), bs[k].a;
    LiveFits(bs, live, core, k, bp);
    ListApart(bs, live, core, k);
    SpliceInserts(mem, bs, k, b);
    InsertOrdered(bs, k, b);
    FreePartition(bs, live, core, k, bp);
    var mem' := Splice(mem, p, bp);
    assert mem'.Keys == mem.Keys && forall u :: u in mem && u != p && u != bp ==> mem'[u] == mem[u];
    hide Ordered, Chain, Partition, Splice, Insert, FitsAfter;
    forall u | IsLive(live - {bp}, u)
      ensures u != p && u != bp
    {
      LiveWithout(live, bp, u);
    }
    forall a | a in live - {bp}
      ensures a != p && a != bp
    {
      LiveUnit(live - {bp}, a);
    }
  }

  /** A fresh region from sbrk may enter the heap as one live block. */
  lemma GrowKeeps(mem: map<nat, Header>, bs: seq<Blk>, live: map<nat, nat>, core: set<nat>,
                  mem': map<nat, Header>, hp: nat, n: nat, region: set<nat>)
    requires HeapOk(mem, bs, live, core) && n >= 1 && hp > BASE
    requires forall u: nat :: u in region <==> Blk(hp, n).Covers(u)
    requires region !! core
    requires forall u :: u in mem && u !in region ==> u in mem' && mem'[u] == mem[u]
    requires forall u :: u in region ==> u in mem'
    requires hp in mem' && mem'[hp].size == n
    ensures hp !in live
    ensures HeapOk(mem', bs, live[hp := n], core + region)
    ensures Untouched(mem, mem', live)
  {
    assert hp in region;
    if hp in live {
      LiveUnit(live, hp);
    }
    forall i | 0 <= i < |bs|
      ensures Linked(mem', bs, i)
    {
      assert Linked(mem, bs, i);
      GrowApart(bs, live, core, region, i);
    }
    assert Partition(bs, live[hp := n], core + region) by {
      forall u: nat
        ensures IsLive(live[hp := n], u) <==> IsLive(live, u) || Blk(hp, n).Covers(u)
      {
        LiveWith(live, hp, n, u);
      }
    }
    GrowLive(mem, live, core, mem', hp, n, region);
  }

  lemma GrowApart(bs: seq<Blk>, live: map<nat, nat>, core: set<nat>, region: set<nat>, i: nat)
    requires Ordered(bs) && Partition(bs, live, core) && i < |bs|
    requires region !! core && forall u: nat :: u in region ==> u > BASE
    ensures bs[i].a !in region
  {
    if i > 0 {
      FreeUnit(bs, i);
    }
  }

  lemma GrowLive(mem: map<nat, Header>, live: map<nat, nat>, core: set<nat>,
                 mem': map<nat, Header>, hp: nat, n: nat, region: set<nat>)
    requires LiveOk(mem, live) && hp !in live && n >= 1
    requires forall u: nat :: IsLive(live, u) ==> u in core
    requires forall u: nat :: u in region <==> Blk(hp, n).Covers(u)
    requires region !! core && forall u :: u in mem && u !in region ==> u in mem' && mem'[u] == mem[u]
    requires hp in mem' && mem'[hp].size == n
    ensures LiveOk(mem', live[hp := n])
  {
    forall a | a in live
      ensures a !in region && (a < hp ==> a + live[a] <= hp) && (hp < a ==> hp + n <= a)
    {
      LiveUnit(live, a);
      assert Blk(a, live[a]).Covers(hp) ==> IsLive(live, hp);
      assert hp in region;
    }
  }

  lemma CarvePartition(bs: seq<Blk>, live: map<nat, nat>, core: set<nat>, i: nat, n: nat)
    requires Ordered(bs) && Partition(bs, live, core) && 1 <= i < |bs| && 1 <= n <= bs[i].n
    requires forall a :: a in live ==> live[a] >= 1
    ensures var c := Carved(bs, i, n);
            && c.a !in live
            && Partition(Carve(bs, i, n), live[c.a := n], core)
            && forall u :: c.Covers(u) ==> u in core && !IsLive(live, u)
  {
    var c := Carved(bs, i, n);
    CarveOrdered(bs, i, n);
    hide IsFree, Carve, Carved, Ordered;
    forall u: nat
      ensures IsFree(bs, u) <==> IsFree(Carve(bs, i, n), u) || c.Covers(u)
      ensures !(IsFree(Carve(bs, i, n), u) && c.Covers(u))
    {
      CarveUnits(bs, i, n, u);
      CarveApart(bs, i, n, u);
    }
    assert c.Covers(c.a);
    if c.a in live {
      LiveUnit(live, c.a);
    }
    hide IsLive;
    forall u: nat
      ensures IsLive(live[c.a := n], u) <==> IsLive(live, u) || c.Covers(u)
    {
      LiveWith(live, c.a, n, u);
      assert c == Blk(c.a, n);
    }
  }

  lemma CarveLive(mem: map<nat, Header>, live: map<nat, nat>, mem': map<nat, Header>, c: Blk)
    requires LiveOk(mem, live) && c.a !in live && c.n >= 1
    requires forall u :: c.Covers(u) ==> !IsLive(live, u)
    requires forall a :: a in live ==> a in mem' && mem'[a] == mem[a]
    requires c.a in mem' && mem'[c.a].size == c.n
    ensures LiveOk(mem', live[c.a := c.n])
  {
    forall a | a in live
      ensures (a < c.a ==> a + live[a] <= c.a) && (c.a < a ==> c.a + c.n <= a)
    {
      LiveUnit(live, a);
      assert c.Covers(c.a);
      assert Blk(a, live[a]).Covers(c.a) ==> IsLive(live, c.a);
    }
  }

  /** The header writes of malloc at umalloc.c:76-82, p being the successor of prev. */
  function CarveMem(mem: map<nat, Header>, prev: nat, p: nat, n: nat): map<nat, Header>
    requires prev in mem && p in mem && n <= mem[p].size
    requires n < mem[p].size ==> p + mem[p].size - n in mem
  {
    if mem[p].size == n then mem[prev := mem[prev].(ptr := mem[p].ptr)]
    else
      var q := p + mem[p].size - n;
      mem[p := mem[p].(size := mem[p].size - n)][q := mem[q].(size := n)]
  }

  lemma CarveChain(mem: map<nat, Header>, bs: seq<Blk>, h: nat, n: nat)
    requires Ordered(bs) && Chain(mem, bs) && h + 1 < |bs| && 1 <= n <= bs[h + 1].n && Carved(bs, h + 1, n).a in mem
    ensures bs[h].a in mem && bs[h + 1].a in mem && mem[bs[h + 1].a].size == bs[h + 1].n
    ensures Chain(CarveMem(mem, bs[h].a, bs[h + 1].a, n), Carve(bs, h + 1, n))
  {
    assert Linked(mem, bs, h) && Linked(mem, bs, h + 1);
    SortedAscending(bs);
    var i, r, c := h + 1, Carve(bs, h + 1, n), Carved(bs, h + 1, n);
    if bs[i].n == n {
      UnlinkChain(mem, bs, h);
    } else {
      ShrinkChain(mem, bs, i, n);
      forall j | 0 <= j < |r|
        ensures r[j].a != c.a
      {
        assert j < i ==> bs[j].a < bs[i].a;
        assert i < j ==> bs[i].End() <= bs[j].a;
      }
      var m := mem[bs[i].a := mem[bs[i].a].(size := bs[i].n - n)];
      ChainFrame(m, r, c.a, m[c.a].(size := n));
    }
  }

  lemma CarveMemFrame(mem: map<nat, Header>, prev: nat, p: nat, n: nat)
    requires prev in mem && p in mem && prev != p && n <= mem[p].size
    requires n < mem[p].size ==> p + mem[p].size - n in mem
    ensures var mem', q := CarveMem(mem, prev, p, n), p + mem[p].size - n;
            && mem'.Keys == mem.Keys
            && mem'[q].size == n
            && forall u :: u in mem && u != prev && u != p && u != q ==> mem'[u] == mem[u]
  {
  }

  /** The units that malloc writes or hands out are not in any live block. */
  lemma CarveUntouched(mem: map<nat, Header>, mem': map<nat, Header>, live: map<nat, nat>, x: nat, y: nat, z: nat)
    requires LiveOk(mem, live) && mem'.Keys == mem.Keys
    requires forall u :: u in mem && u != x && u != y && u != z ==> mem'[u] == mem[u]
    requires !IsLive(live, x) && !IsLive(live, y) && !IsLive(live, z)
    ensures Untouched(mem, mem', live)
    ensures forall a :: a in live ==> a in mem' && mem'[a] == mem[a]
  {
    hide IsLive;
    forall u | u in mem && IsLive(live, u)
      ensures u in mem' && mem'[u] == mem[u]
    {
      assert u in mem'.Keys && u != x && u != y && u != z;
    }
    forall a | a in live
      ensures a in mem' && mem'[a] == mem[a]
    {
      LiveUnit(live, a);
      assert a in mem'.Keys && a != x && a != y && a != z;
    }
  }

  /** malloc keeps the heap in order, returns free units, and touches no live block. */
  lemma CarveKeeps(mem: map<nat, Header>, bs: seq<Blk>, live: map<nat, nat>, core: set<nat>, h: nat, n: nat)
    requires HeapOk(mem, bs, live, core) && h + 1 < |bs| && 1 <= n <= bs[h + 1].n
    ensures var c := Carved(bs, h + 1, n);
            && bs[h].a in mem && bs[h + 1].a in mem && mem[bs[h + 1].a].size == bs[h + 1].n
            && c.a in mem && c.n == n && c.a !in live
            && var mem' := CarveMem(mem, bs[h].a, bs[h + 1].a, n);
               && HeapOk(mem', Carve(bs, h + 1, n), live[c.a := n], core)
               && Untouched(mem, mem', live)
  {
    var i, c := h + 1, Carved(bs, h + 1, n);
    CarveOrdered(bs, i, n);
    CarvePartition(bs, live, core, i, n);
    assert c.Covers(c.a) && c.a in mem;
    CarveChain(mem, bs, h, n);
    ListApart(bs, live, core, h);
    ListApart(bs, live, core, i);
    assert bs[h].a < bs[i].a && c.a == bs[i].a + bs[i].n - n;
    hide Ordered, Chain, Partition, CarveMem, Carve, Carved, LiveOk, IsLive, Untouched;
    CarveMemFrame(mem, bs[h].a, bs[i].a, n);
    var mem' := CarveMem(mem, bs[h].a, bs[i].a, n);
    CarveUntouched(mem, mem', live, bs[h].a, bs[i].a, c.a);
    CarveLive(mem, live, mem', c);
  }

  // ---------- Conservation ----------

  /** The n unit addresses from a on. */
  function Region(a: nat, n: nat): (r: set<nat>)
    ensures forall u :: u in r <==> Blk(a, n).Covers(u)
    ensures |r| == n
  {
    if n == 0 then {} else Region(a, n - 1) + {a + n - 1}
  }

  function FreeTotal(bs: seq<Blk>): nat {
    if bs == [] then 0 else FreeTotal(bs[..|bs| - 1]) + bs[|bs| - 1].n
  }

  ghost function LiveTotal(live: map<nat, nat>): nat
    decreases |live|
  {
    if live == map[] then 0
    else
      var a :| a in live;
      live[a] + LiveTotal(live - {a})
  }

  lemma FreeSnoc(bs: seq<Blk>, b: Blk, u: nat)
    ensures IsFree(bs + [b], u) <==> IsFree(bs, u) || b.Covers(u)
  {
    var r := bs + [b];
    assert r[|bs|] == b;
    if IsFree(bs, u) {
      var i :| 0 <= i < |bs| && bs[i].Covers(u);
      assert r[i].Covers(u);
    }
    if IsFree(r, u) && !b.Covers(u) {
      var i :| 0 <= i < |r| && r[i].Covers(u);
      assert bs[i].Covers(u);
    }
  }

  lemma FreeBelow(bs: seq<Blk>, b: Blk, u: nat)
    requires forall i :: 0 <= i < |bs| ==> bs[i].End() <= b.a
    ensures !(IsFree(bs, u) && b.Covers(u))
  {
  }

  lemma {:induction false} FreeCount(bs: seq<Blk>) returns (units: set<nat>)
    requires forall i, j :: 0 <= i < j < |bs| ==> bs[i].End() <= bs[j].a
    ensures forall u :: u in units <==> IsFree(bs, u)
    ensures |units| == FreeTotal(bs)
    decreases |bs|
  {
    if bs == [] {
      units := {};
    } else {
      var front, last := bs[..|bs| - 1], bs[|bs| - 1];
      var us := FreeCount(front);
      assert forall i :: 0 <= i < |front| ==> front[i].End() <= last.a;
      hide IsFree;
      units := us + Region(last.a, last.n);
      forall u
        ensures u in units <==> IsFree(bs, u)
        ensures u in us ==> u !in Region(last.a, last.n)
      {
        assert front + [last] == bs;
        FreeSnoc(front, last, u);
        FreeBelow(front, last, u);
      }
      assert us !! Region(last.a, last.n);
    }
  }

  lemma {:induction false} LiveCount(live: map<nat, nat>) returns (units: set<nat>)
    requires forall x, y :: x in live && y in live && x < y ==> x + live[x] <= y
    ensures forall u :: u in units <==> IsLive(live, u)
    ensures |units| == LiveTotal(live)
    decreases |live|
  {
    if live == map[] {
      units := {};
    } else {
      var a :| a in live && LiveTotal(live) == live[a] + LiveTotal(live - {a});
      var us := LiveCount(live - {a});
      units := us + Region(a, live[a]);
      forall u
        ensures u in us ==> u !in Region(a, live[a])
        ensures u in units <==> IsLive(live, u)
      {
        LiveWithout(live, a, u);
      }
      assert us !! Region(a, live[a]);
    }
  }

  /** The units of the free blocks and the live blocks add up to the units sbrk gave. */
  lemma UnitsConserved(mem: map<nat, Header>, bs: seq<Blk>, live: map<nat, nat>, core: set<nat>)
    requires HeapOk(mem, bs, live, core)
    ensures FreeTotal(bs) + LiveTotal(live) == |core|
  {
    var free := FreeCount(bs);
    var used := LiveCount(live);
    forall u
      ensures u in core <==> u in free + used
    {
    }
    assert core == free + used && free !! used;
  }

  // ---------- Request sizes ----------

  /** nunits at umalloc.c:69, in unsigned 32-bit arithmetic. */
  function Units(nbytes: nat): nat {
    (nbytes + HEADER - 1) % UINT / HEADER + 1
  }

  /** A block of Units(nbytes) has room for nbytes after its header exactly when the addition does not wrap. */
  lemma UnitsHoldRequest(nbytes: nat)
    requires nbytes < UINT
    ensures (Units(nbytes) - 1) * HEADER >= nbytes <==> nbytes <= 0xFFFF_FFF8
  {
    if nbytes + HEADER - 1 < UINT {
      assert (nbytes + 7) / 8 * 8 >= nbytes;
    } else {
      assert (nbytes + HEADER - 1) % UINT == nbytes + HEADER - 1 - UINT;
    }
  }

  // ---------- sbrk ----------

  const KERNBASE: nat := 0x8000_0000

  /** The argument of sbrk for nu units: the product in 32 bits, read as an int. */
  function SbrkBytes(nu: nat): int {
    var x := nu * HEADER % UINT;
    if x < 0x8000_0000 then x else x - UINT
  }

  /** growproc succeeded with a new size, failed with nothing changed, or failed after it freed every page. */
  datatype Break = To(brk: nat) | Failed | Freed

  /**
   growproc with n bytes from a process size of brk units, with `free` physical
   pages left to allocuvm.  Shrinking past 0 wraps, and deallocuvm then leaves
   the size alone.  Shrinking to 0 frees every page, and the new size 0 is taken
   for deallocuvm's failure.
   */
  function Growproc(brk: nat, n: int, free: nat): Break {
    if n > 0 then
      (if brk * HEADER + n >= KERNBASE || Pages(brk * HEADER + n) - Pages(brk * HEADER) > free then Failed
       else To(brk + n / HEADER))
    else if n < 0 then
      (if -n > brk * HEADER then To(brk) else if brk * HEADER + n == 0 then Freed else To(brk + n / HEADER))
    else To(brk)
  }

  /** The units of the process after its size went from brk to `to`. */
  function Granted(granted: set<nat>, brk: nat, to: nat): set<nat> {
    if brk <= to then granted + Region(brk, to - brk) else set u | u in granted && u < to
  }

  /** The units of the process after growproc. */
  function Kept(granted: set<nat>, brk: nat, g: Break): set<nat> {
    match g
    case To(to) => Granted(granted, brk, to)
    case Failed => granted
    case Freed => {}
  }

  /** When sbrk returns -1: the size would reach the kernel, pages are missing, or nothing would be left. */
  ghost predicate SbrkFails(brk: nat, n: int, free: nat) {
    if n <= 0 then n < 0 && n + brk * HEADER == 0
    else !(brk * HEADER + n < KERNBASE && Pages(brk * HEADER + n) <= Pages(brk * HEADER) + free)
  }

  /** What the process has after sbrk: new units after the old ones, or those below the new size. */
  ghost function SbrkLeaves(granted: set<nat>, brk: nat, n: int, free: nat): set<nat> {
    if n > 0 && !SbrkFails(brk, n, free) then granted + Region(brk, n / HEADER)
    else if -(brk * HEADER) <= n < 0 then set u | u in granted && u * HEADER < brk * HEADER + n
    else granted
  }

  /** growproc fails exactly there and leaves exactly that. */
  lemma SbrkExactly(granted: set<nat>, brk: nat, n: int, free: nat)
    requires n % HEADER == 0 && forall u :: u in granted ==> u < brk
    ensures Growproc(brk, n, free).To? <==> !SbrkFails(brk, n, free)
    ensures Kept(granted, brk, Growproc(brk, n, free)) == SbrkLeaves(granted, brk, n, free)
  {
    var m := n / HEADER;
    assert n == m * HEADER;
    hide Pages;
    if n == 0 {
      assert Region(brk, 0) == {};
    } else if n < 0 && brk + m >= 0 {
      assert forall u :: u in granted ==> (u * HEADER < brk * HEADER + n <==> u < brk + m);
    }
  }

  lemma SbrkWhole(nu: nat)
    ensures SbrkBytes(nu) % HEADER == 0
  {
    assert nu * HEADER % UINT == nu * HEADER - nu * HEADER / UINT * UINT;
  }

  lemma SbrkSign(nu: nat)
    requires 1 <= nu && nu * HEADER <= UINT
    ensures nu * HEADER < 0x8000_0000 <==> SbrkBytes(nu) > 0
    ensures nu * HEADER < 0x8000_0000 ==> SbrkBytes(nu) == nu * HEADER
    ensures nu * HEADER >= 0x8000_0000 ==> SbrkBytes(nu) <= 0
  {
    if nu * HEADER < UINT {
      assert nu * HEADER % UINT == nu * HEADER;
    }
  }

  lemma GrowUp(brk: nat, nu: nat, free: nat)
    requires 1 <= nu && Growproc(brk, nu * HEADER, free).To?
    ensures Growproc(brk, nu * HEADER, free) == To(brk + nu)
  {
  }

  lemma GrowDown(brk: nat, n: int, free: nat)
    requires n <= 0 && Growproc(brk, n, free).To?
    ensures Growproc(brk, n, free).brk <= brk
  {
  }

  /** sbrk for nu units gives them exactly when their bytes are a positive int. */
  lemma SbrkBacksExactly(granted: set<nat>, brk: nat, nu: nat, free: nat)
    requires 1 <= nu && nu * HEADER <= UINT && forall u :: u in granted ==> u < brk
    requires Growproc(brk, SbrkBytes(nu), free).To?
    ensures var g := Granted(granted, brk, Growproc(brk, SbrkBytes(nu), free).brk);
            && (Region(brk, nu) <= g <==> nu * HEADER < 0x8000_0000)
            && (nu * HEADER < 0x8000_0000 ==> g == granted + Region(brk, nu))
  {
    hide Growproc, SbrkBytes;
    SbrkSign(nu);
    if nu * HEADER < 0x8000_0000 {
      GrowUp(brk, nu, free);
    } else {
      GrowDown(brk, SbrkBytes(nu), free);
      assert brk in Region(brk, nu);
    }
  }

  /** In terms of the request: a block taken from new core is backed exactly up to this size, or when the request wrapped. */
  lemma CoreHoldsRequest(nbytes: nat)
    requires nbytes < UINT
    ensures CoreSize(Units(nbytes)) * HEADER <= UINT
    ensures CoreSize(Units(nbytes)) * HEADER < 0x8000_0000 <==> nbytes <= 0x7FFF_FFF0 || nbytes > 0xFFFF_FFF8
    ensures (Units(nbytes) - 1) * HEADER >= nbytes && CoreSize(Units(nbytes)) * HEADER < 0x8000_0000 <==> nbytes <= 0x7FFF_FFF0
  {
    UnitsHoldRequest(nbytes);
    if nbytes > 0xFFFF_FFF8 {
      assert (nbytes + HEADER - 1) % UINT == nbytes + HEADER - 1 - UINT;
    } else {
      assert (nbytes + HEADER - 1) % UINT == nbytes + HEADER - 1;
    }
  }

  /** One byte more than the largest request that does not wrap gets a block without any room. */
  lemma WrappingRequest()
    ensures Units(0xFFFF_FFF9) == 1 && (Units(0xFFFF_FFF9) - 1) * HEADER < 0xFFFF_FFF9
  {
  }

  /** The largest request that does not wrap asks sbrk for 0 bytes, which succeeds and gives nothing. */
  lemma ZeroByteCore(brk: nat, free: nat)
    ensures Units(0xFFFF_FFF8) == 0x2000_0000 && SbrkBytes(Units(0xFFFF_FFF8)) == 0
    ensures Growproc(brk, SbrkBytes(Units(0xFFFF_FFF8)), free) == To(brk)
  {
  }

  /** Half the address space is negative as an int: the break stays where it was, and sbrk succeeds. */
  lemma NegativeCore(brk: nat, free: nat)
    requires 0 < brk * HEADER < 0x7FFF_FFF8
    ensures SbrkBytes(Units(0x8000_0000)) == -0x7FFF_FFF8
    ensures Growproc(brk, SbrkBytes(Units(0x8000_0000)), free) == To(brk)
  {
  }

  /** A process of 0x4000 bytes that asks for 0xFFFF_BFF8 more loses all its pages, and malloc returns 0. */
  lemma FreedProcess(free: nat)
    ensures SbrkBytes(CoreSize(Units(0xFFFF_BFF8))) == -0x4000 && 0x800 * HEADER == 0x4000
    ensures Growproc(0x800, SbrkBytes(CoreSize(Units(0xFFFF_BFF8))), free) == Freed
  {
  }

  /** The requests that make sbrk free the whole process, for every process size. */
  lemma FreedExactly(nbytes: nat, brk: nat, free: nat)
    requires nbytes < UINT && 1 <= brk && brk * HEADER <= KERNBASE
    ensures Growproc(brk, SbrkBytes(CoreSize(Units(nbytes))), free) == Freed
            <==> UINT - brk * HEADER - 16 < nbytes <= UINT - brk * HEADER - 8
  {
    hide SbrkBytes, Units;
    var nu := CoreSize(Units(nbytes));
    CoreHoldsRequest(nbytes);
    assert Units(nbytes) >= 1 by {
      UnitsPositive(nbytes);
    }
    SbrkSign(nu);
    FreedUnits(nbytes, brk);
    FreedBytes(nu, brk);
  }

  lemma FreedBytes(nu: nat, brk: nat)
    requires 1 <= nu && nu * HEADER <= UINT && 1 <= brk && brk * HEADER <= KERNBASE
    ensures SbrkBytes(nu) == -(brk * HEADER) <==> nu * HEADER + brk * HEADER == UINT
  {
    if nu * HEADER < UINT {
      assert nu * HEADER % UINT == nu * HEADER;
    }
  }

  lemma FreedUnits(nbytes: nat, brk: nat)
    requires nbytes < UINT && 1 <= brk && brk * HEADER <= KERNBASE
    ensures CoreSize(Units(nbytes)) * HEADER + brk * HEADER == UINT
            <==> UINT - brk * HEADER - 16 < nbytes <= UINT - brk * HEADER - 8
  {
    if nbytes > 0xFFFF_FFF8 {
      assert (nbytes + HEADER - 1) % UINT == nbytes + HEADER - 1 - UINT;
    } else {
      assert (nbytes + HEADER - 1) % UINT == nbytes + HEADER - 1;
    }
  }

  // ---------- umalloc.c ----------

  /** The last block below address a among the first n. */
  ghost function Slot(bs: seq<Blk>, a: nat, n: nat): (k: nat)
    requires 1 <= n <= |bs| && bs[0].a < a && (n < |bs| ==> a <= bs[n].a)
    ensures k < |bs| && bs[k].a < a && (k + 1 < |bs| ==> a <= bs[k + 1].a)
  {
    if bs[n - 1].a < a then n - 1 else Slot(bs, a, n - 1)
  }

  /** Steps around the circular list from block i to block j, at least one. */
  ghost function Distance(bs: seq<Blk>, i: nat, j: nat): int {
    if i < j then j - i else j - i + |bs|
  }

  lemma InsertBig(bs: seq<Blk>, k: nat, b: Blk)
    requires FitsAfter(bs, k, b)
    ensures var r := Insert(bs, k, b); k < |r| && (r[k].n >= b.n || r[Next(r, k)].n >= b.n)
  {
    RightShape(bs, k, b);
    hide Ordered, Ascending, Put;
    var r := JoinIfTouching(Put(bs, k, b), k + 1);
    assert Grown(bs, k, b).n >= b.n;
  }

  /** Units that morecore asks for. */
  function CoreSize(nu: nat): nat {
    if nu < 4096 then 4096 else nu
  }

  /** Memory after sbrk added n zeroed units at hp and morecore stored their count. */
  function Extended(mem: map<nat, Header>, hp: nat, n: nat): map<nat, Header> {
    (mem + map u | u in Region(hp, n) :: Header(0, 0))[hp := Header(0, n)]
  }

  lemma ExtendKeeps(mem: map<nat, Header>, bs: seq<Blk>, live: map<nat, nat>, core: set<nat>, hp: nat, n: nat)
    requires HeapOk(mem, bs, live, core) && n >= 1 && hp > BASE && Region(hp, n) !! core
    ensures hp !in live
    ensures HeapOk(Extended(mem, hp, n), bs, live[hp := n], core + Region(hp, n))
    ensures Untouched(mem, Extended(mem, hp, n), live)
  {
    hide HeapOk, Region, Untouched;
    assert Blk(hp, n).Covers(hp);
    GrowKeeps(mem, bs, live, core, Extended(mem, hp, n), hp, n, Region(hp, n));
  }

  lemma UntouchedSelf(mem: map<nat, Header>, live: map<nat, nat>)
    ensures Untouched(mem, mem, live)
  {
  }

  /** What survives two changes in a row survives both. */
  lemma UntouchedTwice(m0: map<nat, Header>, m1: map<nat, Header>, m2: map<nat, Header>, live: map<nat, nat>)
    requires Untouched(m0, m1, live) && Untouched(m1, m2, live)
    ensures Untouched(m0, m2, live)
  {
  }

  lemma UnitsPositive(nbytes: nat)
    ensures Units(nbytes) >= 1
  {
  }

  lemma CarveFront(bs: seq<Blk>, h: nat, n: nat)
    requires h + 1 < |bs|
    ensures h < |Carve(bs, h + 1, n)| && Carve(bs, h + 1, n)[h] == bs[h]
  {
  }

  /** What the loops read from a header on the free list. */
  lemma HeapFacts(mem: map<nat, Header>, bs: seq<Blk>, live: map<nat, nat>, core: set<nat>, i: nat)
    requires HeapOk(mem, bs, live, core) && i < |bs|
    ensures bs[i].a in mem && mem[bs[i].a] == Header(bs[Next(bs, i)].a, bs[i].n)
    ensures bs[0].n == 0 && bs[i].a >= BASE
    ensures forall j :: 0 <= j < |bs| && bs[j].a == bs[i].a ==> j == i
  {
    SortedAscending(bs);
    assert Linked(mem, bs, i);
  }

  /** The two conditions that end the search of free at block p with successor q. */
  predicate Stops(bp: nat, p: nat, q: nat) {
    p < bp < q || (p >= q && (bp > p || bp < q))
  }

  lemma StopsAtSlot(bs: seq<Blk>, k: nat, j: nat, bp: nat)
    requires Ascending(bs) && k < |bs| && j < |bs| && bs[0].a < bp
    requires bs[k].a < bp && (k + 1 < |bs| ==> bp < bs[k + 1].a)
    ensures Stops(bp, bs[j].a, bs[Next(bs, j)].a) <==> j == k
  {
  }

  /** A block about to be freed lies strictly between its neighbours on the free list. */
  lemma LiveSlot(mem: map<nat, Header>, bs: seq<Blk>, live: map<nat, nat>, core: set<nat>, bp: nat)
    requires HeapOk(mem, bs, live, core) && bp in live
    ensures Ascending(bs) && |bs| >= 1 && bs[0].a < bp
    ensures var k := Slot(bs, bp, |bs|); k + 1 < |bs| ==> bp < bs[k + 1].a
  {
    LiveUnit(live, bp);
    SortedAscending(bs);
    var k := Slot(bs, bp, |bs|);
    if k + 1 < |bs| {
      ListApart(bs, live, core, k + 1);
    }
  }

  class Heap {
    var mem: map<nat, Header>
    var freep: nat
    // The free list, the position of freep in it, the live blocks and the units the heap took for its own.
    ghost var bs: seq<Blk>
    ghost var fi: nat
    ghost var live: map<nat, nat>
    ghost var core: set<nat>
    // The units the process really has from sbrk.
    ghost var granted: set<nat>

    ghost predicate Valid()
      reads this
    {
      if freep == 0 then live == map[] && core == {}
      else HeapOk(mem, bs, live, core) && fi < |bs| && freep == bs[fi].a
    }

    /** No free block has n units. */
    ghost predicate NoFit(n: nat)
      reads this
    {
      freep == 0 || TooSmall(bs, n)
    }

    constructor ()
      ensures Valid() && live == map[] && core == {} && granted == {}
    {
      mem, freep := map[], 0;
      bs, fi, live, core, granted := [], 0, map[], {}, {};
    }

    /** The search loop of free: stops at the free block below bp, wherever freep was. */
    method FindSlot(bp: nat, ghost k: nat) returns (p: nat)
      requires Valid() && bp in live
      requires k < |bs| && bs[k].a < bp && (k + 1 < |bs| ==> bp < bs[k + 1].a)
      ensures p == bs[k].a
    {
      LiveSlot(mem, bs, live, core, bp);
      hide HeapOk, Ascending, Slot;
      p := freep;
      ghost var j := fi;
      HeapFacts(mem, bs, live, core, j);
      StopsAtSlot(bs, k, j, bp);
      while !(bp > p && bp < mem[p].ptr)
        invariant 0 <= j < |bs| && p == bs[j].a
        invariant p in mem && mem[p].ptr == bs[Next(bs, j)].a
        invariant Stops(bp, p, mem[p].ptr) <==> j == k
        decreases if j <= k then k - j else k - j + |bs|
      {
        if p >= mem[p].ptr && (bp > p || bp < mem[p].ptr) {
          break;
        }
        p := mem[p].ptr;
        j := Next(bs, j);
        HeapFacts(mem, bs, live, core, j);
        StopsAtSlot(bs, k, j, bp);
      }
    }

    /** The header writes of free, joining to the right and then to the left. */
    method SpliceIn(p: nat, bp: nat)
      requires p in mem && bp in mem && mem[p].ptr in mem
      modifies this`mem
      ensures mem == Splice(old(mem), p, bp)
    {
      if bp + mem[bp].size == mem[p].ptr {
        mem := mem[bp := Header(mem[mem[p].ptr].ptr, mem[bp].size + mem[mem[p].ptr].size)];
      } else {
        mem := mem[bp := mem[bp].(ptr := mem[p].ptr)];
      }
      if p + mem[p].size == bp {
        mem := mem[p := Header(mem[bp].ptr, mem[p].size + mem[bp].size)];
      } else {
        mem := mem[p := mem[p].(ptr := bp)];
      }
    }

    /** free: the block joins the free list and whatever it touches there. */
    method Free(ap: nat)
      requires Valid() && ap >= 1 && ap - 1 in live
      modifies this
      ensures Valid() && freep != 0
      ensures live == old(live) - {ap - 1} && core == old(core) && granted == old(granted)
      ensures Untouched(old(mem), mem, live)
      ensures bs[fi].n >= old(live)[ap - 1] || bs[Next(bs, fi)].n >= old(live)[ap - 1]
    {
      var bp := ap - 1;
      LiveSlot(mem, bs, live, core, bp);
      ghost var k := Slot(bs, bp, |bs|);
      var p := FindSlot(bp, k);
      assert HeapOk(mem, bs, live, core) && bs[k].a >= BASE;
      hide HeapOk, Insert, FitsAfter, Untouched, Splice;
      FreeKeeps(mem, bs, live, core, k, bp);
      InsertBig(bs, k, Blk(bp, live[bp]));
      InsertOrdered(bs, k, Blk(bp, live[bp]));
      SpliceIn(p, bp);
      freep := p;
      bs := Insert(bs, k, Blk(bp, live[bp]));
      fi := k;
      live := live - {bp};
    }

    /**
     morecore: at least 4096 units from sbrk, given to free; 0 when sbrk fails.
     The heap takes all of them for its own, whatever sbrk gave, and keeps what
     it has, whatever sbrk took.
     */
    method Morecore(nu: nat, brk: nat, free: nat) returns (hp: nat)
      requires Valid() && freep != 0 && nu >= 1 && brk > BASE
      requires core <= granted && forall u :: u in granted ==> u < brk
      modifies this
      ensures Valid() && freep != 0 && live == old(live)
      ensures var n := SbrkBytes(CoreSize(nu));
              && granted == SbrkLeaves(old(granted), brk, n, free)
              && if SbrkFails(brk, n, free) then
                hp == 0 && mem == old(mem) && freep == old(freep) && core == old(core) && bs == old(bs) && fi == old(fi)
              else
                && hp == freep && core == old(core) + Region(brk, CoreSize(nu))
                && (bs[fi].n >= nu || bs[Next(bs, fi)].n >= nu)
      ensures Untouched(old(mem), mem, live)
    {
      hide HeapOk, Untouched, Region, Extended, Growproc, Kept, SbrkBytes, SbrkFails, SbrkLeaves;
      var n := if nu < 4096 then 4096 else nu;
      SbrkWhole(n);
      SbrkExactly(granted, brk, SbrkBytes(n), free);
      var g := Growproc(brk, SbrkBytes(n), free);
      if !g.To? {
        granted := Kept(granted, brk, g);
        assert Untouched(mem, mem, live) by {
          UntouchedSelf(mem, live);
        }
        return 0;
      }
      hp := brk;
      AboveBreak(core, granted, brk, n);
      ExtendKeeps(mem, bs, live, core, hp, n);
      mem := Extended(mem, hp, n);
      ghost var m := mem;
      live, core, granted := live[hp := n], core + Region(hp, n), Kept(granted, brk, g);
      Free(hp + 1);
      assert live == old(live);
      UntouchedTwice(old(mem), m, mem, live);
      hp := freep;
    }

    /** The first call: the list is the base block alone. */
    method InitBase()
      requires Valid()
      modifies this
      ensures Valid() && freep != 0 && live == old(live) && core == old(core) && granted == old(granted)
      ensures bs == if old(freep) == 0 then [Blk(BASE, 0)] else old(bs)
      ensures Untouched(old(mem), mem, live)
    {
      if freep == 0 {
        mem := mem[BASE := Header(BASE, 0)];
        freep := BASE;
        bs, fi := [Blk(BASE, 0)], 0;
        assert Linked(mem, bs, 0);
      }
    }

    /** The header writes of malloc: unlink block p, or split off its last n units. */
    method CarveOut(prev: nat, p: nat, n: nat) returns (c: nat)
      requires prev in mem && p in mem && 1 <= n <= mem[p].size
      requires n < mem[p].size ==> p + mem[p].size - n in mem
      modifies this`mem
      ensures mem == CarveMem(old(mem), prev, p, n) && c == p + old(mem)[p].size - n
    {
      c := p;
      if mem[c].size == n {
        mem := mem[prev := mem[prev].(ptr := mem[c].ptr)];
      } else {
        mem := mem[c := mem[c].(size := mem[c].size - n)];
        c := c + mem[c].size;
        mem := mem[c := mem[c].(size := n)];
      }
    }

    /** n units leave the block p after prev and become live. */
    method TakeFrom(prev: nat, p: nat, n: nat, ghost h: nat) returns (c: nat)
      requires Valid() && freep != 0 && n >= 1
      requires h + 1 < |bs| && prev == bs[h].a && p == bs[h + 1].a && bs[h + 1].n >= n
      modifies this
      ensures Valid() && freep == prev && core == old(core) && granted == old(granted)
      ensures c !in old(live) && live == old(live)[c := n] && Untouched(old(mem), mem, old(live))
    {
      hide HeapOk, Untouched, Carve, CarveMem;
      HeapFacts(mem, bs, live, core, h);
      CarveKeeps(mem, bs, live, core, h, n);
      CarveFront(bs, h, n);
      c := CarveOut(prev, p, n);
      freep := prev;
      bs := Carve(bs, h + 1, n);
      fi := h;
      live := live[c := n];
    }

    /**
     malloc: a new live block of Units(nbytes) units, or 0 when sbrk failed.
     sbrk is asked exactly when no free block fits, at most once, and malloc
     stores into no live block.  Everything the heap has is backed by the process
     exactly when sbrk was not asked, was asked for a positive number of bytes,
     or took everything from a process without heap.
     */
    method Malloc(nbytes: nat, brk: nat, free: nat) returns (ap: nat)
      requires Valid() && nbytes < UINT && brk > BASE
      requires core <= granted && forall u :: u in granted ==> u < brk
      modifies this
      ensures Valid() && Untouched(old(mem), mem, old(live))
      ensures ap == 0 <==> old(NoFit(Units(nbytes))) && SbrkFails(brk, SbrkBytes(CoreSize(Units(nbytes))), free)
      ensures live == if ap == 0 then old(live) else old(live)[ap - 1 := Units(nbytes)]
      ensures ap != 0 ==> ap - 1 !in old(live)
      ensures core == if ap != 0 && old(NoFit(Units(nbytes))) then old(core) + Region(brk, CoreSize(Units(nbytes))) else old(core)
      ensures granted == if old(NoFit(Units(nbytes))) then SbrkLeaves(old(granted), brk, SbrkBytes(CoreSize(Units(nbytes))), free) else old(granted)
      ensures core <= granted <==> !old(NoFit(Units(nbytes))) || Backed(brk, SbrkBytes(CoreSize(Units(nbytes))), old(core))
    {
      hide HeapOk, Untouched, Region, Units, SbrkFails, SbrkLeaves, SbrkBytes, Backed;
      var nunits := Units(nbytes);
      assert nunits >= 1 by {
        UnitsPositive(nbytes);
      }
      InitBase();
      ghost var nofit := TooSmall(bs, nunits);
      var prevp := freep;
      ghost var j, grown, seen := fi, false, 0;
      HeapFacts(mem, bs, live, core, j);
      var p := mem[prevp].ptr;
      while true
        invariant Valid() && freep != 0 && live == old(live)
        invariant 0 <= j < |bs| && prevp == bs[j].a && p == bs[Next(bs, j)].a
        invariant !grown ==> core == old(core) && granted == old(granted) && Scanned(bs, fi, j, seen, nunits)
        invariant !grown ==> nofit == TooSmall(bs, nunits)
        invariant grown ==> nofit && !SbrkFails(brk, SbrkBytes(CoreSize(nunits)), free)
        invariant grown ==> MoreTaken(old(core), core, old(granted), granted, brk, nunits, free)
        invariant grown ==> bs[fi].n >= nunits || (j == fi && bs[Next(bs, fi)].n >= nunits)
        invariant Untouched(old(mem), mem, old(live))
        decreases if grown then 0 else 1, Distance(bs, j, fi)
      {
        HeapFacts(mem, bs, live, core, Next(bs, j));
        ghost var m := mem;
        if mem[p].size >= nunits {
          var c := TakeFrom(prevp, p, nunits, j);
          UntouchedTwice(old(mem), m, mem, old(live));
          if grown {
            BackedExactly(old(core), core, old(granted), granted, brk, nbytes, free);
          }
          return c + 1;
        }
        ScanOne(bs, fi, j, seen, nunits);
        j, seen := Next(bs, j), seen + 1;
        if p == freep {
          assert j == fi && !grown;
          p := Morecore(nunits, brk, free);
          UntouchedTwice(old(mem), m, mem, old(live));
          if p == 0 {
            BackedExactly(old(core), core, old(granted), granted, brk, nbytes, free);
            return 0;
          }
          j, grown := fi, true;
          HeapFacts(mem, bs, live, core, j);
        }
        prevp, p := p, mem[p].ptr;
      }
    }
  }

  ghost predicate TooSmall(bs: seq<Blk>, n: nat) {
    forall i :: 0 <= i < |bs| ==> bs[i].n < n
  }

  /** The `seen` blocks after block f, up to block j, are too small. */
  ghost predicate Scanned(bs: seq<Blk>, f: nat, j: nat, seen: nat, n: nat)
    requires f < |bs| && j < |bs|
  {
    && (if seen == 0 then j == f else Distance(bs, f, j) == seen)
    && seen < |bs| && forall i :: 0 <= i < |bs| && Distance(bs, f, i) <= seen ==> bs[i].n < n
  }

  /** One more turn of malloc's loop; back at the start, every block has been seen. */
  lemma ScanOne(bs: seq<Blk>, f: nat, j: nat, seen: nat, n: nat)
    requires f < |bs| && j < |bs| && bs[Next(bs, j)].n < n
    ensures Scanned(bs, f, j, seen, n) && Next(bs, j) != f ==> Scanned(bs, f, Next(bs, j), seen + 1, n)
    ensures Scanned(bs, f, j, seen, n) && Next(bs, j) == f ==> TooSmall(bs, n)
  {
  }

  lemma AboveBreak(core: set<nat>, granted: set<nat>, brk: nat, n: nat)
    requires core <= granted && forall u :: u in granted ==> u < brk
    ensures Region(brk, n) !! core
  {
  }

  /** What morecore did to the two sets of units. */
  ghost predicate MoreTaken(core: set<nat>, core': set<nat>, granted: set<nat>, granted': set<nat>, brk: nat, nu: nat, free: nat) {
    var n := SbrkBytes(CoreSize(nu));
    && core' == (if SbrkFails(brk, n, free) then core else core + Region(brk, CoreSize(nu)))
    && granted' == SbrkLeaves(granted, brk, n, free)
  }

  /** A heap of the units in core stays backed when sbrk is asked for n bytes. */
  ghost predicate Backed(brk: nat, n: int, core: set<nat>) {
    n > 0 || (n == -(brk * HEADER) && core == {})
  }

  lemma BackedExactly(core: set<nat>, core': set<nat>, granted: set<nat>, granted': set<nat>, brk: nat, nbytes: nat, free: nat)
    requires nbytes < UINT && brk >= 1 && core <= granted && (forall u :: u in granted ==> u < brk)
    requires MoreTaken(core, core', granted, granted', brk, Units(nbytes), free)
    ensures core' <= granted' <==> Backed(brk, SbrkBytes(CoreSize(Units(nbytes))), core)
  {
    hide SbrkBytes, Units, Granted, SbrkFails, SbrkLeaves;
    var nu := CoreSize(Units(nbytes));
    CoreHoldsRequest(nbytes);
    SbrkSign(nu);
    SbrkWhole(nu);
    SbrkExactly(granted, brk, SbrkBytes(nu), free);
    if Growproc(brk, SbrkBytes(nu), free).To? {
      SbrkBacksExactly(granted, brk, nu, free);
      assert Region(brk, nu) <= core';
    }
  }
}
