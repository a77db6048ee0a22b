/**
 The buffer cache (bio.c) over the in-memory disk of memide.c: a doubly linked
 list of buffers in most-recently-released order.
 */
module BufferCache {
  import opened Blocks
  import opened Collections
  import opened LogCrash

  const HEAD: nat := 30
  const ROOTDEV: int := 1
  const NODEV: int := -1

  /** struct buf; prev and next are indices into the buffer array, HEAD for bcache.head. */
  datatype Buf = Buf(dev: int, blockno: nat, busy: bool, valid: bool, dirty: bool, data: Block, prev: nat, next: nat)

  function BlankBuf(): Buf {
    Buf(NODEV, 0, false, false, false, ZeroBlock(), HEAD, HEAD)
  }

  /** The NBUF buffers, then the list head. */
  type Bufs = s: seq<Buf> | |s| == NBUF + 1 witness seq(NBUF + 1, _ => BlankBuf())

  // ---------- The doubly linked list ----------

  /** Position i of the ring that starts and ends at the head. */
  function RingAt(order: seq<nat>, i: nat): nat
    requires i <= |order| + 1
  {
    if i == 0 || i == |order| + 1 then HEAD else order[i - 1]
  }

  /** prev and next describe exactly the ring head, order[0], order[1], ..., head. */
  ghost predicate Linked(bufs: Bufs, order: seq<nat>) {
    && (forall i :: 0 <= i < |order| ==> order[i] < NBUF)
    && Distinct(order)
    && forall i, j :: 0 <= i <= |order| && j == i + 1 ==>
         bufs[RingAt(order, i)].next == RingAt(order, j) && bufs[RingAt(order, j)].prev == RingAt(order, i)
  }

  function SetNext(bufs: Bufs, i: nat, x: nat): Bufs
    requires i <= HEAD
  {
    bufs[i := bufs[i].(next := x)]
  }

  function SetPrev(bufs: Bufs, i: nat, x: nat): Bufs
    requires i <= HEAD
  {
    bufs[i := bufs[i].(prev := x)]
  }

  function Unlink(bufs: Bufs, b: nat): Bufs
    requires b < NBUF && bufs[b].next <= HEAD && bufs[b].prev <= HEAD
  {
    SetNext(SetPrev(bufs, bufs[b].next, bufs[b].prev), bufs[b].prev, bufs[b].next)
  }

  function PushFront(bufs: Bufs, b: nat): Bufs
    requires b < NBUF && bufs[HEAD].next <= HEAD
  {
    var first := bufs[HEAD].next;
    SetNext(SetPrev(SetPrev(SetNext(bufs, b, first), b, HEAD), first, b), HEAD, b)
  }

  function Without(order: seq<nat>, k: nat): seq<nat>
    requires k < |order|
  {
    order[..k] + order[k + 1..]
  }

  lemma LinkAround(bufs: Bufs, order: seq<nat>, k: nat)
    requires Linked(bufs, order) && k < |order|
    ensures bufs[order[k]].prev == RingAt(order, k) && bufs[order[k]].next == RingAt(order, k + 2)
    ensures RingAt(order, k) <= HEAD && RingAt(order, k + 2) <= HEAD
  {
    assert RingAt(order, k + 1) == order[k];
  }

  lemma UnlinkLinked(bufs: Bufs, order: seq<nat>, k: nat)
    requires Linked(bufs, order) && k < |order|
    ensures bufs[order[k]].next <= HEAD && bufs[order[k]].prev <= HEAD
    ensures Linked(Unlink(bufs, order[k]), Without(order, k))
  {
    LinkAround(bufs, order, k);
    var rest := Without(order, k);
    assert forall i :: 0 <= i <= |rest| + 1 ==>
        RingAt(rest, i) == RingAt(order, if i <= k then i else i + 1);
    forall i, j | 0 <= i <= |rest| && j == i + 1
      ensures Unlink(bufs, order[k])[RingAt(rest, i)].next == RingAt(rest, j)
      ensures Unlink(bufs, order[k])[RingAt(rest, j)].prev == RingAt(rest, i)
    {
      var i', j' := if i <= k then i else i + 1, if j <= k then j else j + 1;
      assert RingAt(rest, i) == RingAt(order, i') && RingAt(rest, j) == RingAt(order, j');
    }
  }

  lemma PushFrontLinked(bufs: Bufs, order: seq<nat>, b: nat)
    requires Linked(bufs, order) && b < NBUF && b !in order
    ensures bufs[HEAD].next <= HEAD
    ensures Linked(PushFront(bufs, b), [b] + order)
  {
    assert RingAt(order, 0) == HEAD && bufs[HEAD].next == RingAt(order, 1);
    var more := [b] + order;
    assert forall i :: 2 <= i <= |more| + 1 ==> RingAt(more, i) == RingAt(order, i - 1);
    forall i, j | 0 <= i <= |more| && j == i + 1
      ensures PushFront(bufs, b)[RingAt(more, i)].next == RingAt(more, j)
      ensures PushFront(bufs, b)[RingAt(more, j)].prev == RingAt(more, i)
    {
      if i >= 2 {
        assert RingAt(more, i) == RingAt(order, i - 1) && RingAt(more, j) == RingAt(order, i);
      } else if i == 1 {
        assert RingAt(more, j) == RingAt(order, 1);
      }
    }
  }

  /** NBUF distinct buffer indices are all of them. */
  lemma OrderCovers(order: seq<nat>, i: nat)
    requires Distinct(order) && |order| == NBUF && i < NBUF
    requires forall k :: 0 <= k < |order| ==> order[k] < NBUF
    ensures i in order
  {
    Pigeonhole(order, NBUF, i);
  }

  lemma Pigeonhole(s: seq<nat>, n: nat, i: nat)
    requires Distinct(s) && |s| == n && i < n
    requires forall k :: 0 <= k < |s| ==> s[k] < n
    ensures i in s
  {
    var used := set k | 0 <= k < |s| :: s[k];
    DistinctSize(s);
    if i !in s {
      SubsetSize(used, Range(n) - {i});
    }
  }

  lemma {:induction false} DistinctSize(s: seq<nat>)
    requires Distinct(s)
    ensures |set k | 0 <= k < |s| :: s[k]| == |s|
    decreases |s|
  {
    if s != [] {
      var t := s[..|s| - 1];
      DistinctSize(t);
      assert (set k | 0 <= k < |s| :: s[k]) == (set k | 0 <= k < |t| :: t[k]) + {s[|s| - 1]};
    }
  }

  function Range(n: nat): (r: set<nat>)
    ensures |r| == n && forall k :: k in r <==> 0 <= k < n
  {
    if n == 0 then {} else Range(n - 1) + {n - 1}
  }

  // ---------- What the cache stands for ----------

  datatype Cache = Cache(bufs: Bufs, order: seq<nat>, disk: Disk)

  predicate Holds(x: Buf, b: nat) {
    x.dev == ROOTDEV && x.blockno == b
  }

  /** The buffer caching block b at or after index i, NBUF if there is none. */
  function Lookup(bufs: Bufs, b: nat, i: nat): (r: nat)
    requires i <= NBUF
    ensures i <= r <= NBUF
    ensures r < NBUF ==> Holds(bufs[r], b)
    ensures forall k :: i <= k < r ==> !Holds(bufs[k], b)
    decreases NBUF - i
  {
    if i == NBUF || Holds(bufs[i], b) then i else Lookup(bufs, b, i + 1)
  }

  /** The least recently released buffer that is neither busy nor dirty, NBUF if there is none. */
  function Victim(bufs: Bufs, order: seq<nat>): (r: nat)
    requires forall i :: 0 <= i < |order| ==> order[i] < NBUF
    ensures r <= NBUF
    ensures r < NBUF ==> r in order && !bufs[r].busy && !bufs[r].dirty
    ensures r == NBUF ==> forall i :: 0 <= i < |order| ==> bufs[order[i]].busy || bufs[order[i]].dirty
  {
    if order == [] then NBUF
    else
      var last := order[|order| - 1];
      if !bufs[last].busy && !bufs[last].dirty then last else Victim(bufs, order[..|order| - 1])
  }

  predicate IdleClean(x: Buf) {
    !x.busy && !x.dirty
  }

  /** Buffer p is the last of the list that is neither busy nor dirty. */
  ghost predicate LastIdle(bufs: Bufs, order: seq<nat>, p: nat) {
    exists k :: 0 <= k < |order| && order[k] == p && IdleAt(bufs, order, k)
  }

  ghost predicate IdleAt(bufs: Bufs, order: seq<nat>, k: nat) {
    && k < |order| && order[k] < NBUF && IdleClean(bufs[order[k]])
    && forall j :: k < j < |order| && order[j] < NBUF ==> !IdleClean(bufs[order[j]])
  }

  lemma {:induction false} VictimIsLast(bufs: Bufs, order: seq<nat>)
    requires forall i :: 0 <= i < |order| ==> order[i] < NBUF
    ensures Victim(bufs, order) < NBUF ==> LastIdle(bufs, order, Victim(bufs, order))
  {
    if order != [] {
      var n := |order| - 1;
      if IdleClean(bufs[order[n]]) {
        assert IdleAt(bufs, order, n);
      } else {
        var rest := order[..n];
        VictimIsLast(bufs, rest);
        if Victim(bufs, rest) < NBUF {
          var k :| 0 <= k < |rest| && rest[k] == Victim(bufs, rest) && IdleAt(bufs, rest, k);
          forall j | k < j < |order|
            ensures !IdleClean(bufs[order[j]])
          {
            assert j < n ==> rest[j] == order[j];
          }
          assert IdleAt(bufs, order, k);
        }
      }
    }
  }

  /** Each block has at most one buffer, and a clean idle buffer agrees with the disk. */
  ghost predicate Coherent(bufs: Bufs, disk: Disk) {
    && (forall i :: 0 <= i < NBUF ==>
         if bufs[i].dev == NODEV then !bufs[i].busy && !bufs[i].valid && !bufs[i].dirty
         else
           && bufs[i].dev == ROOTDEV && bufs[i].blockno < |disk|
           && (bufs[i].dirty ==> bufs[i].valid)
           && (bufs[i].valid && !bufs[i].dirty && !bufs[i].busy ==> bufs[i].data == disk[bufs[i].blockno]))
    && forall i, j :: 0 <= i < j < NBUF && bufs[i].dev == ROOTDEV && bufs[j].dev == ROOTDEV ==>
         bufs[i].blockno != bufs[j].blockno
  }

  ghost predicate CacheInv(c: Cache) {
    Linked(c.bufs, c.order) && |c.order| == NBUF && Coherent(c.bufs, c.disk)
  }

  /** The contents of block b as seen through the cache. */
  function LogicalAt(bufs: Bufs, disk: Disk, b: nat): Block
    requires b < |disk|
  {
    var i := Lookup(bufs, b, 0);
    if i < NBUF && bufs[i].valid then bufs[i].data else disk[b]
  }

  function Logical(c: Cache): (p: Disk)
    ensures |p| == |c.disk|
  {
    seq(|c.disk|, b requires 0 <= b < |c.disk| => LogicalAt(c.bufs, c.disk, b))
  }

  lemma LookupIs(bufs: Bufs, disk: Disk, i: nat)
    requires Coherent(bufs, disk) && i < NBUF && bufs[i].dev == ROOTDEV
    ensures Lookup(bufs, bufs[i].blockno, 0) == i
  {
  }

  // ---------- The operations on values ----------

  datatype GetResult = Got(i: nat) | Sleep(i: nat) | NoBuffers

  datatype Event =
    | Get(b: nat)
    | Fill(i: nat)
    | Modify(i: nat, data: Block)
    | Pin(i: nat)
    | Bwrite(i: nat)
    | Brelse(i: nat)

  /** bget: hit on an idle buffer, hit on a busy one, recycled buffer, or panic. */
  function GetResultOf(c: Cache, b: nat): GetResult
    requires forall i :: 0 <= i < |c.order| ==> c.order[i] < NBUF
  {
    var i, v := Lookup(c.bufs, b, 0), Victim(c.bufs, c.order);
    if i < NBUF then if c.bufs[i].busy then Sleep(i) else Got(i)
    else if v < NBUF then Got(v) else NoBuffers
  }

  function DoGet(c: Cache, b: nat): Cache
    requires forall i :: 0 <= i < |c.order| ==> c.order[i] < NBUF
  {
    var i, v := Lookup(c.bufs, b, 0), Victim(c.bufs, c.order);
    if i < NBUF then
      if c.bufs[i].busy then c else c.(bufs := c.bufs[i := c.bufs[i].(busy := true)])
    else if v < NBUF then
      c.(bufs := c.bufs[v := c.bufs[v].(dev := ROOTDEV, blockno := b, busy := true, valid := false, dirty := false)])
    else c
  }

  /** The position of buffer i in the list. */
  function Position(order: seq<nat>, i: nat): (k: nat)
    requires i in order
    ensures k < |order| && order[k] == i
  {
    if order[0] == i then 0 else 1 + Position(order[1..], i)
  }

  /**
   What callers owe: only busy buffers are modified, and a buffer that differs
   from the disk is pinned (log_write) or written (bwrite) before its release.
   */
  ghost predicate Allowed(c: Cache, e: Event) {
    if e.Get? then e.b < |c.disk|
    else
      && e.i < NBUF && c.bufs[e.i].busy
      && match e
         case Fill(i) => !c.bufs[i].valid
         case Brelse(i) => c.bufs[i].valid &&
           (c.bufs[i].dirty || (c.bufs[i].blockno < |c.disk| && c.bufs[i].data == c.disk[c.bufs[i].blockno]))
         case _ => c.bufs[e.i].valid
  }

  ghost function Do(c: Cache, e: Event): Cache
    requires CacheInv(c) && Allowed(c, e)
  {
    match e
    case Get(b) => DoGet(c, b)
    case Fill(i) => c.(bufs := c.bufs[i := c.bufs[i].(data := c.disk[c.bufs[i].blockno], valid := true)])
    case Modify(i, data) => c.(bufs := c.bufs[i := c.bufs[i].(data := data)])
    case Pin(i) => c.(bufs := c.bufs[i := c.bufs[i].(dirty := true)])
    case Bwrite(i) =>
      c.(bufs := c.bufs[i := c.bufs[i].(dirty := false, valid := true)],
         disk := c.disk[c.bufs[i].blockno := c.bufs[i].data])
    case Brelse(i) =>
      OrderCovers(c.order, i);
      var k := Position(c.order, i);
      UnlinkLinked(c.bufs, c.order, k);
      PushFrontLinked(Unlink(c.bufs, i), Without(c.order, k), i);
      var bufs := PushFront(Unlink(c.bufs, i), i);
      Cache(bufs[i := bufs[i].(busy := false)], [i] + Without(c.order, k), c.disk)
  }

  // ---------- The plain block map ----------

  /** The same event on a plain map from blocks to contents: only Modify changes it. */
  function Plain(p: Disk, c: Cache, e: Event): Disk {
    if e.Modify? && e.i < NBUF && c.bufs[e.i].blockno < |p| then p[c.bufs[e.i].blockno := e.data] else p
  }

  lemma LogicalOf(bufs: Bufs, disk: Disk, i: nat)
    requires Coherent(bufs, disk) && i < NBUF && bufs[i].dev == ROOTDEV
    ensures LogicalAt(bufs, disk, bufs[i].blockno) == if bufs[i].valid then bufs[i].data else disk[bufs[i].blockno]
  {
    LookupIs(bufs, disk, i);
  }

  lemma LogicalUncached(bufs: Bufs, disk: Disk, b: nat)
    requires b < |disk| && forall i :: 0 <= i < NBUF ==> !Holds(bufs[i], b)
    ensures LogicalAt(bufs, disk, b) == disk[b]
  {
  }

  /** The list depends on prev and next alone. */
  lemma LinkedSame(x: Bufs, y: Bufs, order: seq<nat>)
    requires Linked(x, order) && forall i :: 0 <= i <= NBUF ==> y[i].prev == x[i].prev && y[i].next == x[i].next
    ensures Linked(y, order)
  {
    assert forall i :: 0 <= i <= |order| + 1 ==> RingAt(order, i) <= NBUF;
  }

  /** Two coherent caches with the same identities agree wherever their buffers and disks do. */
  lemma LogicalFrame(x: Bufs, d: Disk, y: Bufs, e: Disk, b: nat)
    requires Coherent(x, d) && Coherent(y, e) && b < |d| == |e|
    requires d[b] == e[b]
    requires forall i :: 0 <= i < NBUF && (Holds(x[i], b) || Holds(y[i], b)) ==>
                Holds(x[i], b) && Holds(y[i], b) && x[i].valid == y[i].valid && x[i].data == y[i].data
    ensures LogicalAt(y, e, b) == LogicalAt(x, d, b)
  {
    var i := Lookup(x, b, 0);
    if i < NBUF {
      LogicalOf(x, d, i);
      LogicalOf(y, e, i);
    } else {
      LogicalUncached(y, e, b);
    }
  }

  /** New contents for one buffer and its block touch nothing else. */
  lemma ReplaceBuf(c: Cache, i: nat, x: Buf, d: Disk)
    requires CacheInv(c) && i < NBUF && c.bufs[i].dev == ROOTDEV
    requires x == c.bufs[i].(busy := x.busy, valid := x.valid, dirty := x.dirty, data := x.data)
    requires x.dirty ==> x.valid
    requires |d| == |c.disk| && forall b :: 0 <= b < |d| && b != x.blockno ==> d[b] == c.disk[b]
    requires x.valid && !x.dirty && !x.busy ==> x.data == d[x.blockno]
    ensures CacheInv(Cache(c.bufs[i := x], c.order, d))
    ensures Logical(Cache(c.bufs[i := x], c.order, d)) ==
            Logical(c)[x.blockno := if x.valid then x.data else d[x.blockno]]
  {
    var bufs := c.bufs[i := x];
    LinkedSame(c.bufs, bufs, c.order);
    assert Coherent(bufs, d);
    forall b | 0 <= b < |d|
      ensures LogicalAt(bufs, d, b) == Logical(c)[x.blockno := if x.valid then x.data else d[x.blockno]][b]
    {
      if b == x.blockno {
        LogicalOf(bufs, d, i);
      } else {
        LogicalFrame(c.bufs, c.disk, bufs, d, b);
      }
    }
  }

  /** Recycling a clean idle buffer for an uncached block loses nothing. */
  lemma RecycleBuf(c: Cache, v: nat, b: nat)
    requires CacheInv(c) && v < NBUF && b < |c.disk|
    requires !c.bufs[v].busy && !c.bufs[v].dirty
    requires forall i :: 0 <= i < NBUF ==> !Holds(c.bufs[i], b)
    ensures var x := c.bufs[v].(dev := ROOTDEV, blockno := b, busy := true, valid := false, dirty := false);
            && CacheInv(c.(bufs := c.bufs[v := x]))
            && Logical(c.(bufs := c.bufs[v := x])) == Logical(c)
  {
    var x := c.bufs[v].(dev := ROOTDEV, blockno := b, busy := true, valid := false, dirty := false);
    var bufs := c.bufs[v := x];
    LinkedSame(c.bufs, bufs, c.order);
    assert Coherent(bufs, c.disk);
    forall y | 0 <= y < |c.disk|
      ensures LogicalAt(bufs, c.disk, y) == LogicalAt(c.bufs, c.disk, y)
    {
      if y == b {
        LogicalOf(bufs, c.disk, v);
        LogicalUncached(c.bufs, c.disk, b);
      } else if Holds(c.bufs[v], y) {
        LogicalOf(c.bufs, c.disk, v);
        LogicalUncached(bufs, c.disk, y);
      } else {
        LogicalFrame(c.bufs, c.disk, bufs, c.disk, y);
      }
    }
  }

  lemma GetCoherent(c: Cache, b: nat)
    requires CacheInv(c) && b < |c.disk|
    ensures CacheInv(DoGet(c, b))
    ensures Logical(DoGet(c, b)) == Logical(c)
  {
    var i, v := Lookup(c.bufs, b, 0), Victim(c.bufs, c.order);
    if i < NBUF {
      if !c.bufs[i].busy {
        LogicalOf(c.bufs, c.disk, i);
        ReplaceBuf(c, i, c.bufs[i].(busy := true), c.disk);
      }
    } else if v < NBUF {
      RecycleBuf(c, v, b);
    }
  }

  lemma FieldsCoherent(c: Cache, e: Event)
    requires CacheInv(c) && Allowed(c, e) && !e.Get? && !e.Brelse?
    ensures CacheInv(Do(c, e))
    ensures Logical(Do(c, e)) == Plain(Logical(c), c, e)
  {
    var x := c.bufs[e.i];
    LogicalOf(c.bufs, c.disk, e.i);
    match e
    case Fill(i) => ReplaceBuf(c, i, x.(data := c.disk[x.blockno], valid := true), c.disk);
    case Modify(i, data) => ReplaceBuf(c, i, x.(data := data), c.disk);
    case Pin(i) => ReplaceBuf(c, i, x.(dirty := true), c.disk);
    case Bwrite(i) => ReplaceBuf(c, i, x.(dirty := false, valid := true), c.disk[x.blockno := x.data]);
  }

  /** Buffers that agree except on links. */
  ghost predicate SameButLinks(x: Bufs, y: Bufs) {
    forall i :: 0 <= i < NBUF ==> y[i] == x[i].(prev := y[i].prev, next := y[i].next)
  }

  lemma RelinkCoherent(c: Cache, bufs: Bufs, order: seq<nat>)
    requires CacheInv(c) && SameButLinks(c.bufs, bufs) && Linked(bufs, order) && |order| == NBUF
    ensures CacheInv(Cache(bufs, order, c.disk))
    ensures Logical(Cache(bufs, order, c.disk)) == Logical(c)
  {
    assert Coherent(bufs, c.disk);
    forall b | 0 <= b < |c.disk|
      ensures LogicalAt(bufs, c.disk, b) == LogicalAt(c.bufs, c.disk, b)
    {
      LogicalFrame(c.bufs, c.disk, bufs, c.disk, b);
    }
  }

  lemma UnlinkKeeps(bufs: Bufs, b: nat)
    requires b < NBUF && bufs[b].next <= HEAD && bufs[b].prev <= HEAD
    ensures SameButLinks(bufs, Unlink(bufs, b))
  {
  }

  lemma PushKeeps(bufs: Bufs, b: nat)
    requires b < NBUF && bufs[HEAD].next <= HEAD
    ensures SameButLinks(bufs, PushFront(bufs, b))
  {
  }

  lemma BrelseCoherent(c: Cache, i: nat)
    requires CacheInv(c) && Allowed(c, Brelse(i))
    ensures CacheInv(Do(c, Brelse(i)))
    ensures Logical(Do(c, Brelse(i))) == Logical(c)
    ensures Do(c, Brelse(i)).order[0] == i
  {
    OrderCovers(c.order, i);
    var k := Position(c.order, i);
    UnlinkLinked(c.bufs, c.order, k);
    PushFrontLinked(Unlink(c.bufs, i), Without(c.order, k), i);
    UnlinkKeeps(c.bufs, i);
    PushKeeps(Unlink(c.bufs, i), i);
    var bufs := PushFront(Unlink(c.bufs, i), i);
    var r := Cache(bufs, [i] + Without(c.order, k), c.disk);
    RelinkCoherent(c, bufs, r.order);
    LogicalOf(r.bufs, r.disk, i);
    ReplaceBuf(r, i, bufs[i].(busy := false), r.disk);
  }

  /** Every allowed event keeps the invariant and acts as on a plain block map. */
  lemma CacheStep(c: Cache, e: Event)
    requires CacheInv(c) && Allowed(c, e)
    ensures CacheInv(Do(c, e))
    ensures Logical(Do(c, e)) == Plain(Logical(c), c, e)
  {
    match e
    case Get(b) => GetCoherent(c, b);
    case Brelse(i) => BrelseCoherent(c, i);
    case _ => FieldsCoherent(c, e);
  }

  /** Releasing a buffer changes links and that buffer's busy flag, nothing else. */
  lemma BrelseBufs(c: Cache, i: nat, j: nat)
    requires CacheInv(c) && Allowed(c, Brelse(i)) && j < NBUF
    ensures var x := Do(c, Brelse(i)).bufs[j];
            x == c.bufs[j].(busy := c.bufs[j].busy && i != j, prev := x.prev, next := x.next)
  {
    OrderCovers(c.order, i);
    var k := Position(c.order, i);
    UnlinkLinked(c.bufs, c.order, k);
    PushFrontLinked(Unlink(c.bufs, i), Without(c.order, k), i);
    UnlinkKeeps(c.bufs, i);
    PushKeeps(Unlink(c.bufs, i), i);
  }

  /** A dirty buffer keeps its block and contents until bwrite; only its holder can change the data. */
  lemma PinnedStays(c: Cache, e: Event, i: nat)
    requires CacheInv(c) && Allowed(c, e) && i < NBUF && c.bufs[i].dirty
    ensures var x := Do(c, e).bufs[i];
            && x.dev == c.bufs[i].dev && x.blockno == c.bufs[i].blockno && x.valid
            && (x.dirty || e == Bwrite(i))
            && (x.data == c.bufs[i].data || (e.Modify? && e.i == i))
  {
    if e.Brelse? {
      BrelseBufs(c, e.i, i);
    }
  }

  // ---------- Whole runs ----------

  ghost predicate AllAllowed(c: Cache, es: seq<Event>)
    requires CacheInv(c)
    decreases |es|
  {
    es == [] || (Allowed(c, es[0]) && (CacheStep(c, es[0]); AllAllowed(Do(c, es[0]), es[1..])))
  }

  ghost function After(c: Cache, es: seq<Event>): Cache
    requires CacheInv(c) && AllAllowed(c, es)
    decreases |es|
  {
    if es == [] then c else CacheStep(c, es[0]); After(Do(c, es[0]), es[1..])
  }

  /** The plain block map after the same events. */
  ghost function PlainAfter(p: Disk, c: Cache, es: seq<Event>): Disk
    requires CacheInv(c) && AllAllowed(c, es)
    decreases |es|
  {
    if es == [] then p else CacheStep(c, es[0]); PlainAfter(Plain(p, c, es[0]), Do(c, es[0]), es[1..])
  }

  /**
   Cache coherence: after any run of allowed events the cache stands for the
   plain block map, so every buffer a caller holds shows that map's contents.
   */
  lemma {:induction false} CoherentRun(c: Cache, es: seq<Event>)
    requires CacheInv(c) && AllAllowed(c, es)
    ensures CacheInv(After(c, es))
    ensures Logical(After(c, es)) == PlainAfter(Logical(c), c, es)
    ensures forall i :: 0 <= i < NBUF && After(c, es).bufs[i].valid ==>
              var x := After(c, es).bufs[i];
              x.blockno < |PlainAfter(Logical(c), c, es)| && x.data == PlainAfter(Logical(c), c, es)[x.blockno]
    decreases |es|
  {
    if es == [] {
      forall i | 0 <= i < NBUF && c.bufs[i].valid
        ensures c.bufs[i].blockno < |c.disk| && c.bufs[i].data == Logical(c)[c.bufs[i].blockno]
      {
        LogicalOf(c.bufs, c.disk, i);
      }
    } else {
      CacheStep(c, es[0]);
      CoherentRun(Do(c, es[0]), es[1..]);
    }
  }

  // ---------- The recycled buffer is the one released longest ago ----------

  /** For each buffer the time of its last release. */
  type Ages = s: seq<nat> | |s| == NBUF witness seq(NBUF, _ => 0)

  function Release(ages: Ages, now: nat, e: Event): Ages {
    if e.Brelse? && e.i < NBUF then ages[e.i := now] else ages
  }

  /** The times after the events, the first of which happens at `now`. */
  function AgesAfter(ages: Ages, now: nat, es: seq<Event>): Ages
    decreases |es|
  {
    if es == [] then ages else AgesAfter(Release(ages, now, es[0]), now + 1, es[1..])
  }

  /** The list goes from the latest release to the earliest. */
  ghost predicate ByAge(order: seq<nat>, ages: Ages) {
    forall p, q :: 0 <= p < q < |order| && order[p] < NBUF && order[q] < NBUF ==> ages[order[p]] >= ages[order[q]]
  }

  lemma StepByAge(c: Cache, e: Event, ages: Ages, now: nat)
    requires CacheInv(c) && Allowed(c, e) && ByAge(c.order, ages) && forall i :: 0 <= i < NBUF ==> ages[i] <= now
    ensures ByAge(Do(c, e).order, Release(ages, now, e))
  {
    if e.Brelse? {
      OrderCovers(c.order, e.i);
      var k := Position(c.order, e.i);
      FrontIsLatest(c.order, k, ages, now);
    }
  }

  /** A release makes its buffer the first of the list. */
  lemma FrontIsLatest(order: seq<nat>, k: nat, ages: Ages, now: nat)
    requires Distinct(order) && k < |order| && forall i :: 0 <= i < |order| ==> order[i] < NBUF
    requires ByAge(order, ages) && forall i :: 0 <= i < NBUF ==> ages[i] <= now
    ensures ByAge([order[k]] + Without(order, k), ages[order[k] := now])
  {
    hide Without;
    WithoutKeeps(order, k, 0);
    var order' := [order[k]] + Without(order, k);
    forall p, q | 0 <= p < q < |order'|
      ensures order'[p] < NBUF && order'[q] < NBUF && ages[order[k] := now][order'[p]] >= ages[order[k] := now][order'[q]]
    {
      WithoutKeeps(order, k, q - 1);
      if p > 0 {
        WithoutKeeps(order, k, p - 1);
      }
    }
  }

  /** Where a position of the shortened list was before; the removed buffer is not in it. */
  lemma WithoutKeeps(order: seq<nat>, k: nat, p: nat)
    requires Distinct(order) && k < |order| && forall i :: 0 <= i < |order| ==> order[i] < NBUF
    ensures |Without(order, k)| == |order| - 1
    ensures p < |order| - 1 ==>
              var q := if p < k then p else p + 1;
              Without(order, k)[p] == order[q] && order[q] != order[k] && order[q] < NBUF
  {
  }

  lemma NoVictim(c: Cache)
    requires CacheInv(c)
    ensures Victim(c.bufs, c.order) == NBUF <==> forall i :: 0 <= i < NBUF ==> !IdleClean(c.bufs[i])
  {
    forall i | 0 <= i < NBUF && Victim(c.bufs, c.order) == NBUF
      ensures !IdleClean(c.bufs[i])
    {
      OrderCovers(c.order, i);
    }
  }

  lemma {:induction false} RunByAge(c: Cache, es: seq<Event>, ages: Ages, now: nat)
    requires CacheInv(c) && AllAllowed(c, es) && ByAge(c.order, ages) && forall i :: 0 <= i < NBUF ==> ages[i] <= now
    ensures ByAge(After(c, es).order, AgesAfter(ages, now, es))
    decreases |es|
  {
    hide CacheInv, ByAge, Do, Allowed;
    if es != [] {
      CacheStep(c, es[0]);
      StepByAge(c, es[0], ages, now);
      RunByAge(Do(c, es[0]), es[1..], Release(ages, now, es[0]), now + 1);
    }
  }

  /**
   Over every run: the buffer that bget recycles for a block that is not cached
   is idle and clean, and no idle clean buffer was released longer ago.
   */
  lemma RecycledIsOldest(c: Cache, es: seq<Event>, ages: Ages, now: nat, b: nat, v: nat, i: nat)
    requires CacheInv(c) && AllAllowed(c, es) && ByAge(c.order, ages) && forall j :: 0 <= j < NBUF ==> ages[j] <= now
    requires CacheInv(After(c, es)) && GetResultOf(After(c, es), b) == Got(v)
    requires forall j :: 0 <= j < NBUF ==> !Holds(After(c, es).bufs[j], b)
    requires i < NBUF && IdleClean(After(c, es).bufs[i])
    ensures v < NBUF && IdleClean(After(c, es).bufs[v]) && AgesAfter(ages, now, es)[v] <= AgesAfter(ages, now, es)[i]
  {
    RunByAge(c, es, ages, now);
    var z := After(c, es);
    hide After, AgesAfter;
    VictimIsLast(z.bufs, z.order);
    var k :| 0 <= k < |z.order| && z.order[k] == v && IdleAt(z.bufs, z.order, k);
    OrderCovers(z.order, i);
    var p := Position(z.order, i);
    assert p <= k;
  }

  // ---------- Busy and dirty blocks, and room for one more ----------

  ghost function BusyBlocks(c: Cache): set<nat> {
    set i | 0 <= i < NBUF && c.bufs[i].busy :: c.bufs[i].blockno
  }

  ghost function DirtyBlocks(c: Cache): set<nat> {
    set i | 0 <= i < NBUF && c.bufs[i].dirty :: c.bufs[i].blockno
  }

  lemma {:induction false} PinnedCount(c: Cache, n: nat, s: set<nat>)
    requires CacheInv(c) && n <= NBUF
    requires forall i :: 0 <= i < n ==> (c.bufs[i].busy || c.bufs[i].dirty) && c.bufs[i].blockno in s
    ensures n <= |s|
  {
    if n > 0 {
      var b := c.bufs[n - 1].blockno;
      PinnedCount(c, n - 1, s - {b});
    }
  }

  /** While fewer than NBUF blocks are busy or dirty, bget never panics for lack of buffers. */
  lemma RoomForOne(c: Cache, b: nat)
    requires CacheInv(c) && |BusyBlocks(c) + DirtyBlocks(c)| < NBUF
    ensures !GetResultOf(c, b).NoBuffers?
  {
    if GetResultOf(c, b).NoBuffers? {
      forall i | 0 <= i < NBUF
        ensures c.bufs[i].busy || c.bufs[i].dirty
      {
        OrderCovers(c.order, i);
      }
      PinnedCount(c, NBUF, BusyBlocks(c) + DirtyBlocks(c));
    }
  }

  lemma GetsUnlessBusy(c: Cache, b: nat)
    requires CacheInv(c) && b !in BusyBlocks(c)
    requires b in DirtyBlocks(c) || |BusyBlocks(c) + DirtyBlocks(c)| < NBUF
    ensures GetResultOf(c, b).Got?
  {
    if b in DirtyBlocks(c) {
      var i :| 0 <= i < NBUF && c.bufs[i].dirty && c.bufs[i].blockno == b;
      LookupIs(c.bufs, c.disk, i);
    } else {
      RoomForOne(c, b);
    }
  }

  /** The busy or dirty blocks of the first n buffers. */
  ghost function InUse(c: Cache, n: nat): set<nat>
    requires n <= NBUF
  {
    if n == 0 then {}
    else InUse(c, n - 1) + if c.bufs[n - 1].busy || c.bufs[n - 1].dirty then {c.bufs[n - 1].blockno} else {}
  }

  lemma {:induction false} InUseCount(c: Cache, n: nat)
    requires n <= NBUF
    ensures |InUse(c, n)| <= n
    ensures (exists i :: 0 <= i < n && !c.bufs[i].busy && !c.bufs[i].dirty) ==> |InUse(c, n)| < n
  {
    if n > 0 {
      InUseCount(c, n - 1);
      var rest := InUse(c, n - 1);
      assert |rest + {c.bufs[n - 1].blockno}| <= |rest| + 1;
    }
  }

  lemma {:induction false} InUseHas(c: Cache, n: nat, i: nat)
    requires i < n <= NBUF && (c.bufs[i].busy || c.bufs[i].dirty)
    ensures c.bufs[i].blockno in InUse(c, n)
  {
    if i < n - 1 {
      InUseHas(c, n - 1, i);
    }
  }

  lemma InUseCovers(c: Cache)
    ensures BusyBlocks(c) + DirtyBlocks(c) <= InUse(c, NBUF)
  {
    forall i | 0 <= i < NBUF && (c.bufs[i].busy || c.bufs[i].dirty)
      ensures c.bufs[i].blockno in InUse(c, NBUF)
    {
      InUseHas(c, NBUF, i);
    }
  }

  /** With NBUF blocks busy or dirty every other block finds bget's panic. */
  lemma NoRoomForOther(c: Cache, b: nat)
    requires CacheInv(c) && b !in BusyBlocks(c) && b !in DirtyBlocks(c) && |BusyBlocks(c) + DirtyBlocks(c)| >= NBUF
    ensures GetResultOf(c, b).NoBuffers?
  {
    InUseCount(c, NBUF);
    InUseCovers(c);
    SubsetSize(BusyBlocks(c) + DirtyBlocks(c), InUse(c, NBUF));
    assert forall i :: 0 <= i < NBUF ==> c.bufs[i].busy || c.bufs[i].dirty;
    assert forall i :: 0 <= i < NBUF ==> !Holds(c.bufs[i], b);
  }

  /** Flags of one buffer in use change, the others' stay. */
  lemma FlagSets(c: Cache, c': Cache, i: nat)
    requires CacheInv(c) && CacheInv(c') && i < NBUF && c'.bufs[i].dev == ROOTDEV
    requires forall j :: 0 <= j < NBUF && j != i ==>
      c'.bufs[j].busy == c.bufs[j].busy && c'.bufs[j].dirty == c.bufs[j].dirty && c'.bufs[j].blockno == c.bufs[j].blockno
    requires (c.bufs[i].busy || c.bufs[i].dirty) ==> c'.bufs[i].blockno == c.bufs[i].blockno
    ensures BusyBlocks(c') == if c'.bufs[i].busy then BusyBlocks(c) + {c'.bufs[i].blockno} else BusyBlocks(c) - {c'.bufs[i].blockno}
    ensures DirtyBlocks(c') == if c'.bufs[i].dirty then DirtyBlocks(c) + {c'.bufs[i].blockno} else DirtyBlocks(c) - {c'.bufs[i].blockno}
  {
    var b := c'.bufs[i].blockno;
    forall x
      ensures x in BusyBlocks(c') <==> if c'.bufs[i].busy then x in BusyBlocks(c) || x == b else x in BusyBlocks(c) && x != b
      ensures x in DirtyBlocks(c') <==> if c'.bufs[i].dirty then x in DirtyBlocks(c) || x == b else x in DirtyBlocks(c) && x != b
    {
    }
  }

  /** A successful bget adds one busy block and touches one buffer. */
  lemma GetFlags(c: Cache, b: nat)
    requires CacheInv(c) && b < |c.disk| && GetResultOf(c, b).Got?
    ensures var i, c' := GetResultOf(c, b).i, DoGet(c, b);
            && i < NBUF && Holds(c'.bufs[i], b) && c'.bufs[i].busy
            && (c'.bufs[i].dirty ==> c'.bufs[i].valid)
            && (forall j :: 0 <= j < NBUF && j != i ==> c'.bufs[j] == c.bufs[j])
            && BusyBlocks(c') == BusyBlocks(c) + {b}
            && DirtyBlocks(c') == DirtyBlocks(c)
  {
    var i, c' := GetResultOf(c, b).i, DoGet(c, b);
    GetCoherent(c, b);
    FlagSets(c, c', i);
  }

  lemma FillFlags(c: Cache, i: nat)
    requires CacheInv(c) && Allowed(c, Fill(i))
    ensures BusyBlocks(Do(c, Fill(i))) == BusyBlocks(c) && DirtyBlocks(Do(c, Fill(i))) == DirtyBlocks(c)
  {
    var c' := Do(c, Fill(i));
    assert forall j :: 0 <= j < NBUF ==>
      c'.bufs[j].busy == c.bufs[j].busy && c'.bufs[j].dirty == c.bufs[j].dirty && c'.bufs[j].blockno == c.bufs[j].blockno;
  }

  lemma BrelseFlags(c: Cache, i: nat)
    requires CacheInv(c) && Allowed(c, Brelse(i))
    ensures var c' := Do(c, Brelse(i));
            && CacheInv(c') && Logical(c') == Logical(c)
            && BusyBlocks(c') == BusyBlocks(c) - {c.bufs[i].blockno} && DirtyBlocks(c') == DirtyBlocks(c)
  {
    hide Do, Logical, BusyBlocks, DirtyBlocks;
    var c' := Do(c, Brelse(i));
    BrelseCoherent(c, i);
    forall j | 0 <= j < NBUF
      ensures c'.bufs[j] == c.bufs[j].(busy := c.bufs[j].busy && i != j, prev := c'.bufs[j].prev, next := c'.bufs[j].next)
    {
      BrelseBufs(c, i, j);
    }
    DirtyHolder(c, i);
    FlagSets(c, c', i);
  }

  /** bread on values: get, then fill if the buffer is not valid yet. */
  ghost function DoRead(c: Cache, b: nat): Cache
    requires CacheInv(c) && b < |c.disk|
  {
    GetCoherent(c, b);
    var c' := DoGet(c, b);
    if !GetResultOf(c, b).Got? then c else
    GetFlags(c, b);
    var i := GetResultOf(c, b).i;
    if c'.bufs[i].valid then c' else Do(c', Fill(i))
  }

  /** The buffer that bread returns shows the logical contents of its block. */
  lemma ReadShows(c: Cache, b: nat)
    requires CacheInv(c) && b < |c.disk|
    ensures CacheInv(DoRead(c, b)) && DoRead(c, b).disk == c.disk && Logical(DoRead(c, b)) == Logical(c)
    ensures GetResultOf(c, b).Got? ==>
              var i, c' := GetResultOf(c, b).i, DoRead(c, b);
              && i < NBUF && !c.bufs[i].busy && Holds(c'.bufs[i], b) && c'.bufs[i].busy && c'.bufs[i].valid
              && c'.bufs[i].data == Logical(c)[b]
              && BusyBlocks(c') == BusyBlocks(c) + {b} && DirtyBlocks(c') == DirtyBlocks(c)
              && forall j :: 0 <= j < NBUF && j != i ==> c'.bufs[j] == c.bufs[j]
  {
    hide Coherent, BusyBlocks, DirtyBlocks;
    GetCoherent(c, b);
    if GetResultOf(c, b).Got? {
      var i, g := GetResultOf(c, b).i, DoGet(c, b);
      GetFlags(c, b);
      if !g.bufs[i].valid {
        FieldsCoherent(g, Fill(i));
        FillFlags(g, i);
      }
      LogicalOf(DoRead(c, b).bufs, c.disk, i);
    }
  }

  /** A block that is neither busy nor dirty reads as it is on disk. */
  lemma CleanIsDisk(c: Cache, b: nat)
    requires CacheInv(c) && b < |c.disk| && b !in BusyBlocks(c) && b !in DirtyBlocks(c)
    ensures Logical(c)[b] == c.disk[b]
  {
    var i := Lookup(c.bufs, b, 0);
    if i < NBUF {
      LogicalOf(c.bufs, c.disk, i);
    }
  }

  lemma DirtyHolder(c: Cache, i: nat)
    requires CacheInv(c) && i < NBUF && c.bufs[i].dev == ROOTDEV
    ensures c.bufs[i].dirty <==> c.bufs[i].blockno in DirtyBlocks(c)
  {
  }

  /** A held block is cached, and everybody else who wants it sleeps. */
  lemma BusyHolder(c: Cache, b: nat)
    requires CacheInv(c) && b in BusyBlocks(c)
    ensures b < |c.disk| && GetResultOf(c, b).Sleep?
    ensures var i := Lookup(c.bufs, b, 0);
            && i < NBUF && c.bufs[i].busy && Holds(c.bufs[i], b)
            && (c.bufs[i].valid ==> Logical(c)[b] == c.bufs[i].data) && (c.bufs[i].dirty <==> b in DirtyBlocks(c))
  {
    var i :| 0 <= i < NBUF && c.bufs[i].busy && c.bufs[i].blockno == b;
    LookupIs(c.bufs, c.disk, i);
    DirtyHolder(c, i);
  }

  lemma OneLess(held: set<nat>, pinned: set<nat>, b: nat)
    requires b in held && |held + pinned| <= NBUF
    ensures b in pinned || |held - {b} + pinned| < NBUF
    ensures held - {b} + {b} == held + {b}
  {
    if b !in pinned {
      assert held - {b} + pinned == held + pinned - {b};
    }
  }

  /** What bread gives: a buffer, a sleep exactly for a held block, or the panic. */
  lemma ReadOutcome(c: Cache, b: nat)
    requires CacheInv(c) && b < |c.disk|
    ensures GetResultOf(c, b).Sleep? <==> b in BusyBlocks(c)
    ensures b !in BusyBlocks(c) ==>
              (GetResultOf(c, b).Got? <==> b in DirtyBlocks(c) || |BusyBlocks(c) + DirtyBlocks(c)| < NBUF)
    ensures !GetResultOf(c, b).Got? ==> DoRead(c, b) == c
  {
    hide CacheInv, Logical, BusyBlocks, DirtyBlocks, GetResultOf;
    if b in BusyBlocks(c) {
      BusyHolder(c, b);
    } else if b in DirtyBlocks(c) || |BusyBlocks(c) + DirtyBlocks(c)| < NBUF {
      GetsUnlessBusy(c, b);
    } else {
      NoRoomForOther(c, b);
    }
  }

  /** Every held buffer is filled. */
  ghost predicate AllFilled(bufs: Bufs) {
    forall i :: 0 <= i < NBUF && bufs[i].busy ==> bufs[i].valid
  }

  lemma ReadFills(c: Cache, b: nat)
    requires CacheInv(c) && b < |c.disk| && AllFilled(c.bufs)
    ensures AllFilled(DoRead(c, b).bufs)
  {
    ReadShows(c, b);
    hide CacheInv, Logical, BusyBlocks, DirtyBlocks;
  }

  /** Every block in use has a buffer. */
  lemma InUseBound(c: Cache)
    requires CacheInv(c)
    ensures |BusyBlocks(c) + DirtyBlocks(c)| <= NBUF
  {
    InUseCount(c, NBUF);
    InUseCovers(c);
    SubsetSize(BusyBlocks(c) + DirtyBlocks(c), InUse(c, NBUF));
  }

  /**
   What bget promises: the cached buffer, or else the last idle clean one of the
   list, marked busy for block b; nothing else changes.
   */
  ghost predicate GetAnswer(x: Bufs, order: seq<nat>, b: nat, r: GetResult, y: Bufs) {
    && (forall i :: 0 <= i < NBUF && Holds(x[i], b) ==>
          if x[i].busy then r == Sleep(i) else r == Got(i) && y[i] == x[i].(busy := true))
    && ((forall i :: 0 <= i < NBUF ==> !Holds(x[i], b)) ==>
          if r.Got? then LastIdle(x, order, r.i) else r.NoBuffers? && forall i :: 0 <= i < NBUF ==> !IdleClean(x[i]))
    && (if r.Got? then r.i < NBUF && Holds(y[r.i], b) && y[r.i].busy && OnlyBuf(x, y, r.i) else y == x)
  }

  lemma GetMeans(c: Cache, b: nat)
    requires CacheInv(c) && b < |c.disk|
    ensures GetAnswer(c.bufs, c.order, b, GetResultOf(c, b), Do(c, Get(b)).bufs)
  {
    hide GetAnswer, LastIdle;
    var i := Lookup(c.bufs, b, 0);
    if i < NBUF {
      OnlyHolder(c.bufs, c.disk, b, i);
      CachedAnswer(c.bufs, c.order, b, i);
    } else {
      NoVictim(c);
      VictimIsLast(c.bufs, c.order);
      RecycledAnswer(c.bufs, c.order, b, Victim(c.bufs, c.order));
    }
  }

  lemma OnlyHolder(bufs: Bufs, disk: Disk, b: nat, i: nat)
    requires Coherent(bufs, disk) && i < NBUF && Holds(bufs[i], b)
    ensures forall j :: 0 <= j < NBUF && Holds(bufs[j], b) ==> j == i
  {
  }

  lemma CachedAnswer(x: Bufs, order: seq<nat>, b: nat, i: nat)
    requires i < NBUF && Holds(x[i], b) && forall j :: 0 <= j < NBUF && Holds(x[j], b) ==> j == i
    ensures if x[i].busy then GetAnswer(x, order, b, Sleep(i), x) else GetAnswer(x, order, b, Got(i), x[i := x[i].(busy := true)])
  {
    hide LastIdle;
  }

  lemma RecycledAnswer(x: Bufs, order: seq<nat>, b: nat, v: nat)
    requires v <= NBUF && forall j :: 0 <= j < NBUF ==> !Holds(x[j], b)
    requires if v < NBUF then LastIdle(x, order, v) else forall j :: 0 <= j < NBUF ==> !IdleClean(x[j])
    ensures if v < NBUF then
              var y := x[v := x[v].(dev := ROOTDEV, blockno := b, busy := true, valid := false, dirty := false)];
              GetAnswer(x, order, b, Got(v), y)
            else GetAnswer(x, order, b, NoBuffers, x)
  {
    hide LastIdle;
  }

  /** Apart from buffer i nothing changed. */
  ghost predicate OnlyBuf(x: Bufs, y: Bufs, i: nat) {
    forall j :: 0 <= j <= NBUF && j != i ==> y[j] == x[j]
  }

  // ---------- bio.c and memide.c ----------

  class BufCache {
    const buf: array<Buf>
    var disk: Disk
    // The buffer list, most recently released first.
    ghost var order: seq<nat>
    // Every block write so far.
    ghost var trace: seq<Write>
    // What the cache stands for, the blocks in use and the pinned blocks.
    ghost var mem: Disk
    ghost var busy: set<nat>
    ghost var dirty: set<nat>

    ghost function View(): Cache
      reads this, buf
      requires buf.Length == NBUF + 1
    {
      Cache(buf[..], order, disk)
    }

    ghost predicate Valid()
      reads this, buf
    {
      && buf.Length == NBUF + 1
      && CacheInv(View())
      && mem == Logical(View()) && busy == BusyBlocks(View()) && dirty == DirtyBlocks(View())
    }

    /** Every held buffer is filled, as it is once its holder has it from bread. */
    ghost predicate Filled()
      reads this, buf
    {
      buf.Length == NBUF + 1 && AllFilled(buf[..])
    }

    /** Who holds a buffer only reads: the block is pinned or as it is on disk. */
    ghost predicate Quiet()
      reads this, buf
    {
      Filled() && forall b :: b in busy ==> b in dirty || (b < |disk| && b < |mem| && mem[b] == disk[b])
    }

    /** binit: an empty cache with every buffer on the list. */
    constructor (d: Disk)
      ensures Valid() && fresh(buf)
      ensures disk == mem == d && trace == [] && busy == {} && dirty == {}
    {
      disk, mem, trace, order := d, d, [], [];
      busy, dirty := {}, {};
      buf := new Buf[NBUF + 1](_ => BlankBuf());
      new;
      var b := 0;
      while b < NBUF
        invariant 0 <= b <= NBUF && |order| == b
        invariant buf.Length == NBUF + 1 && fresh(buf)
        invariant disk == mem == d && trace == [] && busy == {} && dirty == {}
        invariant Linked(buf[..], order)
        invariant forall k :: 0 <= k < |order| ==> order[k] < b
        invariant forall k :: 0 <= k < NBUF ==> buf[k] == BlankBuf().(prev := buf[k].prev, next := buf[k].next)
      {
        ghost var before := buf[..];
        PushFrontLinked(before, order, b);
        var first := buf[HEAD].next;
        buf[b] := buf[b].(next := first);
        buf[b] := buf[b].(prev := HEAD, dev := NODEV);
        buf[first] := buf[first].(prev := b);
        buf[HEAD] := buf[HEAD].(next := b);
        assert buf[..] == PushFront(before, b);
        order := [b] + order;
        b := b + 1;
      }
      forall x | 0 <= x < |d|
        ensures LogicalAt(buf[..], d, x) == d[x]
      {
        LogicalUncached(buf[..], d, x);
      }
    }

    /** A block that is neither busy nor dirty reads as it is on disk. */
    lemma CleanBlock(b: nat)
      requires Valid() && b < |disk| && b !in busy && b !in dirty
      ensures b < |mem| && mem[b] == disk[b]
    {
      CleanIsDisk(View(), b);
    }

    /** The first loop of bget: from the most recently released end, HEAD if not cached. */
    method FindCached(b: nat) returns (p: nat)
      requires Valid()
      ensures p == Lookup(buf[..], b, 0)
    {
      ghost var k := 0;
      p := buf[HEAD].next;
      assert RingAt(order, 0) == HEAD;
      while p != HEAD
        invariant 0 <= k <= |order| && p == RingAt(order, k + 1)
        invariant forall i :: 0 <= i < k ==> !Holds(buf[order[i]], b)
        decreases |order| - k
      {
        if buf[p].dev == ROOTDEV && buf[p].blockno == b {
          LookupIs(buf[..], disk, p);
          return;
        }
        LinkAround(buf[..], order, k);
        p := buf[p].next;
        k := k + 1;
      }
      forall i | 0 <= i < NBUF
        ensures !Holds(buf[..][i], b)
      {
        OrderCovers(order, i);
      }
    }

    /** The second loop of bget: from the least recently released end, HEAD if all are in use. */
    method FindVictim() returns (p: nat)
      requires Valid()
      ensures p == Victim(buf[..], order)
      ensures p == HEAD <==> forall i :: 0 <= i < NBUF ==> !IdleClean(buf[i])
      ensures p != HEAD ==> p < NBUF && LastIdle(buf[..], order, p)
    {
      hide LastIdle;
      NoVictim(View());
      VictimIsLast(buf[..], order);
      ghost var k := |order|;
      p := buf[HEAD].prev;
      assert RingAt(order, |order| + 1) == HEAD;
      assert order[..|order|] == order;
      while p != HEAD
        invariant 0 <= k <= |order| && p == RingAt(order, k)
        invariant Victim(buf[..], order) == Victim(buf[..], order[..k])
        decreases k
      {
        if !buf[p].busy && !buf[p].dirty {
          return;
        }
        LinkAround(buf[..], order, k - 1);
        p := buf[p].prev;
        assert order[..k][..k - 1] == order[..k - 1];
        k := k - 1;
      }
    }

    /**
     bget, one pass under the cache lock.  Sleep means the caller waits for the
     busy buffer and tries again; NoBuffers is the panic.
     */
    method Bget(b: nat) returns (r: GetResult)
      requires Valid() && b < |disk|
      modifies buf, this`busy
      ensures Valid()
      ensures r == GetResultOf(old(View()), b) && View() == Do(old(View()), Get(b))
      ensures busy == if r.Got? then old(busy) + {b} else old(busy)
      ensures GetAnswer(old(buf[..]), order, b, r, buf[..])
    {
      hide GetAnswer, LastIdle, IdleClean, Coherent, Logical, BusyBlocks, DirtyBlocks, Victim, Lookup;
      GetMeans(View(), b);
      GetCoherent(View(), b);
      if GetResultOf(View(), b).Got? {
        GetFlags(View(), b);
      }
      var p := FindCached(b);
      if p != HEAD {
        if buf[p].busy {
          return Sleep(p);
        }
        buf[p] := buf[p].(busy := true);
        busy := busy + {b};
        return Got(p);
      }
      p := FindVictim();
      if p != HEAD {
        buf[p] := buf[p].(dev := ROOTDEV, blockno := b, busy := true, valid := false, dirty := false);
        busy := busy + {b};
        return Got(p);
      }
      return NoBuffers;
    }

    /** iderw of memide.c: write a dirty buffer, else fill an invalid one. */
    method Iderw(i: nat)
      requires Valid() && i < NBUF && buf[i].busy && (buf[i].dirty || !buf[i].valid)
      modifies this`disk, this`trace, this`dirty, buf
      ensures Valid()
      ensures View() == Do(old(View()), if old(buf[i].dirty) then Event.Bwrite(i) else Fill(i))
      ensures trace == if old(buf[i].dirty) then old(trace) + [Write(buf[i].blockno, buf[i].data)] else old(trace)
      ensures dirty == if old(buf[i].dirty) then old(dirty) - {buf[i].blockno} else old(dirty)
    {
      ghost var c := View();
      ghost var e := if buf[i].dirty then Event.Bwrite(i) else Fill(i);
      FieldsCoherent(c, e);
      if buf[i].dirty {
        buf[i] := buf[i].(dirty := false);
        disk := disk[buf[i].blockno := buf[i].data];
        trace := trace + [Write(buf[i].blockno, buf[i].data)];
        dirty := dirty - {buf[i].blockno};
      } else {
        buf[i] := buf[i].(data := disk[buf[i].blockno]);
        DirtyHolder(c, i);
      }
      buf[i] := buf[i].(valid := true);
      assert View() == Do(c, e);
      FlagSets(c, View(), i);
    }

    /** bread: a busy buffer showing what the cache stands for. */
    method Bread(b: nat) returns (r: GetResult)
      requires Valid() && b < |disk|
      modifies this`disk, this`trace, this`busy, this`dirty, buf
      ensures Valid() && disk == old(disk) && trace == old(trace) && dirty == old(dirty)
      ensures r == GetResultOf(old(View()), b) && View() == DoRead(old(View()), b)
      ensures b !in old(busy) ==> (r.Got? <==> b in dirty || |old(busy) + dirty| < NBUF)
      ensures r.Sleep? <==> b in old(busy)
      ensures old(Filled()) ==> Filled()
      ensures !r.Got? ==> View() == old(View())
      ensures busy == if r.Got? then old(busy) + {b} else old(busy)
      ensures r.Got? ==>
                && r.i < NBUF && !old(buf[r.i].busy)
                && Holds(buf[r.i], b) && buf[r.i].busy && buf[r.i].valid && buf[r.i].data == mem[b]
                && (buf[r.i].dirty <==> b in dirty)
                && forall j :: 0 <= j < NBUF && j != r.i ==> buf[j] == old(buf[j])
    {
      hide CacheInv, Logical, BusyBlocks, DirtyBlocks, AllFilled;
      ghost var c := View();
      ReadShows(c, b);
      ReadOutcome(c, b);
      if AllFilled(c.bufs) {
        ReadFills(c, b);
      }
      r := Bget(b);
      if r.Got? {
        GetFlags(c, b);
        if !buf[r.i].valid {
          Iderw(r.i);
        }
        DirtyHolder(View(), r.i);
      }
      assert View() == DoRead(c, b);
    }

    /** bwrite: the buffer's contents reach the disk in one block write. */
    method Bwrite(i: nat)
      requires Valid() && i < NBUF && buf[i].busy && buf[i].valid
      modifies this`disk, this`trace, this`dirty, buf
      ensures Valid() && buf[i] == old(buf[i]).(dirty := false) && buf[i].blockno < |old(disk)|
      ensures disk == old(disk)[buf[i].blockno := buf[i].data]
      ensures trace == old(trace) + [Write(buf[i].blockno, buf[i].data)]
      ensures dirty == old(dirty) - {buf[i].blockno}
      ensures forall j :: 0 <= j < buf.Length && j != i ==> buf[j] == old(buf[j])
    {
      Pin(i);
      Iderw(i);
    }

    /** A holder's memmove into b->data. */
    method SetData(i: nat, data: Block)
      requires Valid() && i < NBUF && buf[i].busy && buf[i].valid
      modifies buf, this`mem
      ensures Valid() && buf[i] == old(buf[i]).(data := data)
      ensures forall j :: 0 <= j < buf.Length && j != i ==> buf[j] == old(buf[j])
      ensures buf[i].blockno < |disk| && mem == old(mem)[buf[i].blockno := data]
    {
      ghost var c := View();
      FieldsCoherent(c, Modify(i, data));
      DirtyHolder(c, i);
      buf[i] := buf[i].(data := data);
      mem := mem[buf[i].blockno := data];
      FlagSets(c, View(), i);
    }

    /** log_write's B_DIRTY: pins the buffer until it is installed. */
    method Pin(i: nat)
      requires Valid() && i < NBUF && buf[i].busy && buf[i].valid
      modifies buf, this`dirty
      ensures Valid() && buf[i] == old(buf[i]).(dirty := true)
      ensures forall j :: 0 <= j < buf.Length && j != i ==> buf[j] == old(buf[j])
      ensures dirty == old(dirty) + {buf[i].blockno}
    {
      ghost var c := View();
      FieldsCoherent(c, Event.Pin(i));
      buf[i] := buf[i].(dirty := true);
      dirty := dirty + {buf[i].blockno};
      FlagSets(c, View(), i);
    }

    /** The link assignments of brelse. */
    method MoveToFront(i: nat)
      requires buf.Length == NBUF + 1 && Linked(buf[..], order) && i in order
      modifies buf
      ensures old(buf[i].next) <= HEAD && old(buf[i].prev) <= HEAD
      ensures Unlink(old(buf[..]), i)[HEAD].next <= HEAD
      ensures buf[..] == PushFront(Unlink(old(buf[..]), i), i)
    {
      ghost var bufs, k := buf[..], Position(order, i);
      UnlinkLinked(bufs, order, k);
      PushFrontLinked(Unlink(bufs, i), Without(order, k), i);
      hide Linked;
      var prev, next := buf[i].prev, buf[i].next;
      buf[next] := buf[next].(prev := prev);
      buf[prev] := buf[prev].(next := next);
      assert buf[..] == Unlink(bufs, i);
      var first := buf[HEAD].next;
      buf[i] := buf[i].(next := first);
      buf[i] := buf[i].(prev := HEAD);
      buf[first] := buf[first].(prev := i);
      buf[HEAD] := buf[HEAD].(next := i);
    }

    /** brelse: to the most recently released end of the list, and no longer busy. */
    method Brelse(i: nat)
      requires Valid() && i < NBUF && buf[i].busy && buf[i].valid
      requires buf[i].dirty || (buf[i].blockno < |disk| && buf[i].data == disk[buf[i].blockno])
      modifies this`order, this`busy, buf
      ensures Valid() && View() == Do(old(View()), Event.Brelse(i))
      ensures order != [] && order[0] == i && busy == old(busy) - {old(buf[i].blockno)}
      ensures forall j :: 0 <= j < NBUF ==> buf[j] == old(buf[j]).(busy := old(buf[j].busy) && j != i, prev := buf[j].prev, next := buf[j].next)
    {
      hide Coherent, Logical, BusyBlocks, DirtyBlocks, Unlink, PushFront;
      ghost var c := View();
      ghost var e := Event.Brelse(i);
      OrderCovers(order, i);
      MoveToFront(i);
      order := [i] + Without(order, Position(order, i));
      buf[i] := buf[i].(busy := false);
      assert View() == Do(c, e);
      forall j | 0 <= j < NBUF
        ensures buf[j] == c.bufs[j].(busy := c.bufs[j].busy && i != j, prev := buf[j].prev, next := buf[j].next)
      {
        BrelseBufs(c, i, j);
        assert buf[j] == View().bufs[j];
      }
      BrelseFlags(c, i);
      busy := busy - {buf[i].blockno};
    }

    /** The reader that holds block b releases it; whoever sleeps for it in bget tries again. */
    method ReaderLeaves(b: nat)
      requires Valid() && Quiet() && b in busy
      modifies this`order, this`busy, buf
      ensures Valid() && Quiet() && busy == old(busy) - {b}
      ensures forall j :: 0 <= j < NBUF && old(buf[j].blockno) != b ==>
                buf[j] == old(buf[j]).(prev := buf[j].prev, next := buf[j].next)
    {
      hide CacheInv, Logical, BusyBlocks, DirtyBlocks;
      BusyHolder(View(), b);
      var p := FindCached(b);
      Brelse(p);
    }

    /** bread with its sleep: the block comes once its reader has left, or at once; !ok is the panic. */
    method BreadWait(b: nat) returns (ok: bool, i: nat)
      requires Valid() && Quiet() && b < |disk|
      modifies this`disk, this`trace, this`busy, this`dirty, this`order, buf
      ensures Valid() && Filled() && disk == old(disk) && trace == old(trace) && dirty == old(dirty)
      ensures ok <==> b in dirty || b in old(busy) || |old(busy) + dirty| < NBUF
      ensures busy == if ok then old(busy) + {b} else old(busy)
      ensures ok ==> i < NBUF && Holds(buf[i], b) && buf[i].busy && buf[i].valid && buf[i].data == mem[b] && (buf[i].dirty <==> b in dirty)
      ensures forall j :: 0 <= j < NBUF && old(buf[j].busy) && old(buf[j].blockno) != b ==>
                buf[j] == old(buf[j]).(prev := buf[j].prev, next := buf[j].next)
    {
      hide Valid, DoRead, GetResultOf, Do;
      ghost var held, bs := busy, buf[..];
      AtMostAll();
      var r := Bread(b);
      if r.Sleep? {
        assert b in held;
        assert View().bufs == bs;
        ReaderLeaves(b);
        OneLess(held, dirty, b);
        r := Bread(b);
      }
      ok := r.Got?;
      i := if ok then r.i else 0;
    }

    lemma NobodyReads()
      requires Valid() && busy == {}
      ensures Quiet()
    {
      assert forall i :: 0 <= i < NBUF ==> (View().bufs[i].busy ==> View().bufs[i].blockno in BusyBlocks(View()));
    }

    lemma HeldIsBusy(i: nat)
      requires Valid() && i < NBUF && buf[i].busy
      ensures buf[i].blockno in busy
    {
      assert View().bufs[i].busy;
    }

    lemma AtMostAll()
      requires Valid()
      ensures |busy + dirty| <= NBUF
    {
      InUseBound(View());
    }
  }
}
