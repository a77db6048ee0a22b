/** The redo log (log.c) running on the buffer cache. */
module Log {
  import opened Blocks
  import opened Collections
  import opened LogCrash
  import opened BufferCache
  import GroupCommit

  ghost function Elems(s: seq<nat>): set<nat> {
    set i | 0 <= i < |s| :: s[i]
  }

  lemma ElemsSize(s: seq<nat>)
    requires Distinct(s)
    ensures |Elems(s)| == |s|
  {
    DistinctSize(s);
  }

  lemma ElemsTail(s: seq<nat>, i: nat)
    requires Distinct(s) && i < |s|
    ensures Elems(s[i + 1..]) == Elems(s[i..]) - {s[i]}
  {
    var a, b := s[i..], s[i + 1..];
    forall x
      ensures x in Elems(b) <==> x in Elems(a) && x != s[i]
    {
      if x in Elems(a) && x != s[i] {
        var k :| 0 <= k < |a| && a[k] == x;
        assert b[k - 1] == x;
      }
      if x in Elems(b) {
        var k :| 0 <= k < |b| && b[k] == x;
        assert a[k + 1] == x && s[i + 1 + k] == x;
      }
    }
  }

  lemma ApplyNothing(d: Disk)
    ensures InRange([], |d|) && Apply(d, []) == d
  {
  }

  lemma SlotPrefix(L: Layout, mem: Disk, lh: seq<nat>, k: nat)
    requires Fits(L, mem) && Entries(L, |mem|, lh) && k < |lh|
    ensures var ws := LogWrites(L, mem, lh);
            && InRange(ws, |mem|)
            && InRange(ws[..k], |mem|) && InRange(ws[..k + 1], |mem|)
            && ws[..k + 1] == ws[..k] + [Write(L.start + k + 1, mem[lh[k]])]
  {
  }

  lemma LogWritesLength(L: Layout, mem: Disk, lh: seq<nat>)
    requires forall i :: 0 <= i < |lh| ==> lh[i] < |mem|
    ensures |LogWrites(L, mem, lh)| == |lh|
  {
  }

  lemma ElemsSnoc(s: seq<nat>, b: nat)
    ensures Elems(s + [b]) == Elems(s) + {b}
  {
    var t := s + [b];
    forall x
      ensures x in Elems(t) <==> x in Elems(s) || x == b
    {
      if x in Elems(s) {
        var i :| 0 <= i < |s| && s[i] == x;
        assert t[i] == x;
      }
      assert t[|s|] == b;
    }
  }

  /** One more slot write of write_log. */
  lemma ApplySlot(L: Layout, d: Disk, mem: Disk, lh: seq<nat>, k: nat)
    requires Fits(L, d) && |d| == |mem| && Entries(L, |mem|, lh) && k < |lh|
    ensures var ws := LogWrites(L, mem, lh);
            && InRange(ws[..k], |d|) && InRange(ws[..k + 1], |d|)
            && Apply(d, ws[..k])[lh[k]] == d[lh[k]]
            && Apply(d, ws[..k + 1]) == Apply(d, ws[..k])[L.start + k + 1 := mem[lh[k]]]
            && ws[..k + 1] == ws[..k] + [Write(L.start + k + 1, mem[lh[k]])]
    ensures lh[k] in Elems(lh) && lh[k] != L.start + k + 1 && Elems(lh) - {L.start + k + 1} == Elems(lh)
  {
    hide Apply, InRange;
    SlotPrefix(L, mem, lh, k);
    var ws := LogWrites(L, mem, lh);
    ApplyElsewhere(d, ws[..k], lh[k]);
    ApplyNext(d, ws, k);
  }

  lemma InstallPrefix(L: Layout, mem: Disk, lh: seq<nat>, k: nat)
    requires Fits(L, mem) && Entries(L, |mem|, lh) && k < |lh|
    ensures var ws := SlotWrites(L, mem, lh);
            && InRange(ws, |mem|)
            && InRange(ws[..k], |mem|) && InRange(ws[..k + 1], |mem|)
            && ws[..k + 1] == ws[..k] + [Write(lh[k], mem[L.start + k + 1])]
  {
  }

  /** One more home write of install_trans. */
  lemma ApplyInstall(L: Layout, d: Disk, mem: Disk, lh: seq<nat>, k: nat)
    requires Fits(L, d) && |d| == |mem| && Entries(L, |mem|, lh) && k < |lh|
    ensures var ws := SlotWrites(L, mem, lh);
            && InRange(ws[..k], |d|) && InRange(ws[..k + 1], |d|)
            && Apply(d, ws[..k])[L.start + k + 1] == d[L.start + k + 1]
            && Apply(d, ws[..k + 1]) == Apply(d, ws[..k])[lh[k] := mem[L.start + k + 1]]
            && ws[..k + 1] == ws[..k] + [Write(lh[k], mem[L.start + k + 1])]
  {
    hide Apply, InRange;
    InstallPrefix(L, mem, lh, k);
    var ws := SlotWrites(L, mem, lh);
    ApplyElsewhere(d, ws[..k], L.start + k + 1);
    ApplyNext(d, ws, k);
  }

  lemma InstallKeepsHeader(L: Layout, d: Disk)
    requires GoodHeader(L, d)
    ensures Apply(d, InstallWrites(L, d))[L.start] == d[L.start]
  {
    ApplyElsewhere(d, InstallWrites(L, d), L.start);
  }

  /** Commit run piece by piece on a disk d makes the block writes of CommitWrites. */
  lemma CommitPieces(L: Layout, d: Disk, mem: Disk, lh: seq<nat>)
    requires Fits(L, d) && |d| == |mem| && Entries(L, |mem|, lh) && lh != []
    ensures InRange(LogWrites(L, mem, lh), |d|) && InRange(HomeWrites(mem, lh), |d|)
    ensures InRange(CommitWrites(L, mem[L.start], mem, lh), |d|)
    ensures Apply(d, LogWrites(L, mem, lh))[L.start] == d[L.start]
    ensures SlotWrites(L, HeaderDisk(L, mem, mem, lh), lh) == HomeWrites(mem, lh)
    ensures L.start !in Elems(lh)
    ensures var hdr := Encode(mem[L.start], lh);
            var d1 := Apply(d, LogWrites(L, mem, lh))[L.start := hdr];
            && Apply(d1, HomeWrites(mem, lh))[L.start] == hdr
            && Apply(d, CommitWrites(L, mem[L.start], mem, lh)) == Apply(d1, HomeWrites(mem, lh))[L.start := Encode(hdr, [])]
            && CommitWrites(L, mem[L.start], mem, lh) ==
               LogWrites(L, mem, lh) + [Write(L.start, hdr)] + HomeWrites(mem, lh) + [Write(L.start, Encode(hdr, []))]
  {
    hide Apply, Encode;
    var hdr := Encode(mem[L.start], lh);
    var lw, hw := LogWrites(L, mem, lh), HomeWrites(mem, lh);
    var h1, h2 := Write(L.start, hdr), Write(L.start, Encode(hdr, []));
    var ws := CommitWrites(L, mem[L.start], mem, lh);
    assert ws == lw + [h1] + hw + [h2];
    CommitInRange(L, mem[L.start], mem, lh);
    ApplyElsewhere(d, lw, L.start);
    var d1 := Apply(d, lw)[L.start := hdr];
    ApplyOne(d, lw, h1);
    ApplyElsewhere(d1, hw, L.start);
    ApplyConcat(d, lw + [h1], hw);
    ApplyOne(d, lw + [h1] + hw, h2);
    SlotsAreHomes(L, mem, lh);
  }

  lemma SlotsAreHomes(L: Layout, mem: Disk, lh: seq<nat>)
    requires Fits(L, mem) && Entries(L, |mem|, lh)
    ensures SlotWrites(L, HeaderDisk(L, mem, mem, lh), lh) == HomeWrites(mem, lh)
  {
    hide HeaderDisk;
    HeaderDiskBlocks(L, mem, mem, lh);
  }

  lemma ApplyOne(d: Disk, ws: seq<Write>, w: Write)
    requires InRange(ws, |d|) && w.bno < |d|
    ensures InRange(ws + [w], |d|)
    ensures Apply(d, ws + [w]) == Apply(d, ws)[w.bno := w.data]
  {
    assert (ws + [w])[|ws|] == w;
    assert forall i :: 0 <= i < |ws| ==> (ws + [w])[i] == ws[i];
    assert (ws + [w])[..|ws|] == ws;
  }

  lemma SnocAssoc(t: seq<Write>, a: seq<Write>, w: Write)
    ensures t + a + [w] == t + (a + [w])
  {
  }

  lemma Regroup(t: seq<Write>, a: seq<Write>, x: Write, b: seq<Write>, y: Write)
    ensures t + a + [x] + b + [y] == t + (a + [x] + b + [y])
  {
  }

  /** The block writes ws took trace, disk and cached contents from the first three to the last three. */
  ghost predicate Written(trace: seq<Write>, disk: Disk, mem: Disk, ws: seq<Write>, trace': seq<Write>, disk': Disk, mem': Disk) {
    && InRange(ws, |disk|) && InRange(ws, |mem|)
    && trace' == trace + ws && disk' == Apply(disk, ws) && mem' == Apply(mem, ws)
  }

  lemma WrittenNothing(trace: seq<Write>, disk: Disk, mem: Disk, ws: seq<Write>)
    ensures Written(trace, disk, mem, ws[..0], trace, disk, mem)
  {
    assert ws[..0] == [];
  }

  /** One more turn of write_log: the block still shows its contents, and the slot write is the next one. */
  lemma SlotWritten(L: Layout, trace: seq<Write>, disk: Disk, mem: Disk, lh: seq<nat>, k: nat, trace': seq<Write>, disk': Disk, mem': Disk)
    requires Fits(L, disk) && |disk| == |mem| && Entries(L, |mem|, lh) && k < |lh| <= |LogWrites(L, mem, lh)|
    requires Written(trace, disk, mem, LogWrites(L, mem, lh)[..k], trace', disk', mem')
    ensures |mem'| == |mem| && |disk'| == |disk| && mem'[lh[k]] == mem[lh[k]]
    ensures var w := Write(L.start + k + 1, mem[lh[k]]);
            Written(trace, disk, mem, LogWrites(L, mem, lh)[..k + 1], trace' + [w], disk'[w.bno := w.data], mem'[w.bno := w.data])
  {
    hide Apply, InRange, Elems;
    ApplySlot(L, mem, mem, lh, k);
    ApplySlot(L, disk, mem, lh, k);
    SnocAssoc(trace, LogWrites(L, mem, lh)[..k], Write(L.start + k + 1, mem[lh[k]]));
  }

  /** One more turn of install_trans. */
  lemma InstallWritten(L: Layout, trace: seq<Write>, disk: Disk, mem: Disk, lh: seq<nat>, k: nat, trace': seq<Write>, disk': Disk, mem': Disk)
    requires Fits(L, disk) && |disk| == |mem| && Entries(L, |mem|, lh) && k < |lh| <= |SlotWrites(L, mem, lh)|
    requires Written(trace, disk, mem, SlotWrites(L, mem, lh)[..k], trace', disk', mem')
    ensures |mem'| == |mem| && |disk'| == |disk| && mem'[L.start + k + 1] == mem[L.start + k + 1]
    ensures var w := Write(lh[k], mem[L.start + k + 1]);
            Written(trace, disk, mem, SlotWrites(L, mem, lh)[..k + 1], trace' + [w], disk'[w.bno := w.data], mem'[w.bno := w.data])
  {
    hide Apply, InRange;
    ApplyInstall(L, mem, mem, lh, k);
    ApplyInstall(L, disk, mem, lh, k);
    SnocAssoc(trace, SlotWrites(L, mem, lh)[..k], Write(lh[k], mem[L.start + k + 1]));
  }

  class RedoLog {
    const cache: BufCache
    const layout: Layout
    const block: array<nat>
    var n: nat
    var outstanding: int
    var committing: bool

    /** The logged block numbers. */
    ghost function Lh(): seq<nat>
      reads this, block
      requires n <= block.Length
    {
      block[..n]
    }

    /** The cache is in order, and the log region fits the disk. */
    ghost predicate Sound()
      reads this, block, cache, cache.buf
    {
      && cache.Valid() && |cache.mem| == |cache.disk|
      && block.Length == LOGSIZE && n <= LOGSIZE
      && Fits(layout, cache.disk)
    }

    /** The list names exactly the pinned blocks, each once. */
    ghost predicate Tallied()
      reads this, block, cache
    {
      n <= block.Length && Distinct(Lh()) && cache.dirty == Elems(Lh())
    }

    /** Readers outside transactions may hold buffers of home blocks, logged ones too, and only read them. */
    ghost predicate Readers()
      reads cache, cache.buf
    {
      cache.Quiet() && forall b :: b in cache.busy ==> Home(layout, b)
    }

    /** bget finds a buffer for one more block. */
    ghost predicate Room()
      reads cache
    {
      |cache.busy + cache.dirty| < NBUF
    }

    /** Since the given trace, disk and cached contents, exactly these block writes happened. */
    ghost predicate Wrote(trace: seq<Write>, disk: Disk, mem: Disk, ws: seq<Write>)
      reads cache
    {
      Written(trace, disk, mem, ws, cache.trace, cache.disk, cache.mem)
    }

    /** initlog: recover_from_log replays whatever transaction the header names. */
    constructor (c: BufCache, l: Layout)
      requires c.Valid() && c.busy == {} && c.dirty == {} && c.mem == c.disk && GoodHeader(l, c.disk)
      modifies c, c.buf
      ensures cache == c && layout == l && fresh(block)
      ensures Sound() && Tallied() && c.busy == {} && c.dirty == {} && n == 0 && outstanding == 0 && !committing
      ensures c.trace == old(c.trace) + RecoveryWrites(l, old(c.disk))
      ensures c.disk == c.mem == Recovered(l, old(c.disk))
    {
      cache, layout := c, l;
      block := new nat[LOGSIZE](_ => 0);
      n, outstanding, committing := 0, 0, false;
      new;
      Recover();
    }

    /** Buffer i is held and shows block b. */
    ghost predicate Shows(i: nat, b: nat)
      reads cache, cache.buf
      requires cache.buf.Length == NBUF + 1
    {
      && i < NBUF && Holds(cache.buf[i], b) && cache.buf[i].busy && cache.buf[i].valid
      && b < |cache.mem| && cache.buf[i].data == cache.mem[b]
      && (cache.buf[i].dirty <==> b in cache.dirty)
    }

    /** bread of x and then of y find their buffers. */
    ghost predicate RoomFor(x: nat, y: nat)
      reads cache
    {
      && (x in cache.dirty || |cache.busy + cache.dirty| < NBUF)
      && (y in cache.dirty || y in cache.busy || |cache.busy + {x} + cache.dirty| < NBUF)
    }

    /** Two bread calls in a row, the second of which may wait for a reader; !ok is bget's panic in one of them. */
    method BreadPair(x: nat, y: nat) returns (ok: bool, i: nat, j: nat)
      requires Sound() && cache.Quiet() && x != y && x < |cache.disk| && y < |cache.disk| && x !in cache.busy
      modifies cache`disk, cache`trace, cache`busy, cache`dirty, cache`order, cache.buf
      ensures ok <==> old(RoomFor(x, y))
      ensures cache.Valid() && cache.Filled() && (ok ==> cache.busy == old(cache.busy) + {x, y})
      ensures cache.disk == old(cache.disk) && cache.trace == old(cache.trace) && cache.dirty == old(cache.dirty)
      ensures ok ==> cache.buf.Length == NBUF + 1 && Shows(i, x) && Shows(j, y)
    {
      hide BufCache.Valid, DoRead, GetResultOf, Do;
      i, j := 0, 0;
      ghost var held := cache.busy;
      if x !in cache.dirty {
        cache.CleanBlock(x);
      }
      var r := cache.Bread(x);
      if !r.Got? {
        return false, i, j;
      }
      i := r.i;
      ok, j := cache.BreadWait(y);
      assert held + {x} + {y} == held + {x, y};
    }

    /** memmove from buffer s to buffer d, bwrite d, release both. */
    method MoveBlock(s: nat, d: nat, src: nat, dst: nat)
      requires cache.Valid() && cache.Filled() && cache.buf.Length == NBUF + 1
      requires Shows(s, src) && Shows(d, dst) && src != dst
      requires src in cache.dirty || (src < |cache.disk| && cache.mem[src] == cache.disk[src])
      modifies cache, cache.buf
      ensures cache.Valid() && cache.Filled() && cache.busy == old(cache.busy) - {src, dst}
      ensures dst < old(|cache.disk|) && cache.disk == old(cache.disk)[dst := old(cache.mem)[src]]
      ensures cache.trace == old(cache.trace) + [Write(dst, old(cache.mem)[src])]
      ensures cache.mem == old(cache.mem)[dst := old(cache.mem)[src]]
      ensures cache.dirty == old(cache.dirty) - {dst}
    {
      hide BufCache.Valid, Do;
      ghost var held := cache.busy;
      cache.SetData(d, cache.buf[s].data);
      cache.Bwrite(d);
      cache.Brelse(s);
      cache.Brelse(d);
      assert held - {src} - {dst} == held - {src, dst};
    }

    /**
     The body shared by write_log and install_trans: bread x, bread y, copy one
     over the other and bwrite it, release the source first.  A reader of y is
     waited for.
     */
    method CopyBlock(x: nat, y: nat, toX: bool) returns (ok: bool)
      requires Sound() && cache.Quiet() && x != y && x < |cache.disk| && y < |cache.disk| && x !in cache.busy
      modifies cache, cache.buf
      ensures ok <==> old(RoomFor(x, y))
      ensures Sound() && (ok ==> cache.Quiet() && cache.busy == old(cache.busy) - {y})
      ensures !ok ==> cache.disk == old(cache.disk) && cache.trace == old(cache.trace) && cache.mem == old(cache.mem)
      ensures ok ==> var dst, data := if toX then x else y, old(cache.mem)[if toX then y else x];
                     && cache.disk == old(cache.disk)[dst := data]
                     && cache.trace == old(cache.trace) + [Write(dst, data)]
                     && cache.mem == old(cache.mem)[dst := data]
                     && cache.dirty == old(cache.dirty) - {dst}
    {
      hide BufCache.Valid;
      ghost var src, held := if toX then y else x, cache.busy;
      if src !in cache.dirty && src !in cache.busy {
        cache.CleanBlock(src);
      }
      var i, j;
      ok, i, j := BreadPair(x, y);
      if !ok {
        return;
      }
      assert held + {x, y} - {x, y} == held - {y} && {x, y} == {y, x};
      if toX {
        MoveBlock(j, i, y, x);
      } else {
        MoveBlock(i, j, x, y);
      }
    }

    /** One turn of write_log: the cached contents of logged block k go to log slot k. */
    method LogOne(k: nat) returns (ok: bool)
      requires Sound() && Entries(layout, |cache.disk|, Lh()) && cache.dirty == Elems(Lh()) && Readers() && k < n
      modifies cache, cache.buf
      ensures ok <==> old(Room())
      ensures Sound() && (ok ==> cache.dirty == old(cache.dirty) && cache.busy == old(cache.busy) - {Lh()[k]} && Readers())
      ensures !ok ==> cache.trace == old(cache.trace) && cache.disk == old(cache.disk) && cache.mem == old(cache.mem)
      ensures ok ==> var w := Write(layout.start + k + 1, old(cache.mem)[Lh()[k]]);
                     && cache.trace == old(cache.trace) + [w]
                     && cache.disk == old(cache.disk)[w.bno := w.data]
                     && cache.mem == old(cache.mem)[w.bno := w.data]
    {
      hide BufCache.Valid, Elems, Distinct;
      SlotClean(layout, |cache.disk|, Lh(), k);
      assert Elems(Lh()) - {layout.start + k + 1} == Elems(Lh());
      ok := CopyBlock(layout.start + k + 1, block[k], true);
    }

    /**
     write_log: the cached contents of the logged blocks go to the log slots,
     after their readers have left; !ok is bget's panic, when every buffer is
     pinned or held.
     */
    method WriteLog() returns (ok: bool)
      requires Sound() && Entries(layout, |cache.disk|, Lh()) && cache.dirty == Elems(Lh()) && Readers()
      modifies cache, cache.buf
      ensures ok <==> n == 0 || old(Room())
      ensures Sound() && (ok ==> cache.dirty == old(cache.dirty) && cache.busy == old(cache.busy) - Elems(Lh()) && Readers())
      ensures !ok ==> cache.trace == old(cache.trace) && cache.disk == old(cache.disk)
      ensures ok ==> Wrote(old(cache.trace), old(cache.disk), old(cache.mem), LogWrites(layout, old(cache.mem), Lh()))
    {
      hide BufCache.Valid, Apply, InRange, LogWrites, Elems, Distinct, Readers, Written;
      ghost var lh, mem, disk := Lh(), cache.mem, cache.disk;
      ghost var ws := LogWrites(layout, mem, lh);
      LogWritesLength(layout, mem, lh);
      WrittenNothing(cache.trace, disk, mem, ws);
      NoneLeft(cache.busy, lh);
      var tail := 0;
      while tail < n
        invariant 0 <= tail <= n && (tail > 0 ==> old(Room())) && Readers()
        invariant Sound() && cache.dirty == Elems(lh) && cache.busy == old(cache.busy) - Elems(lh[..tail]) && Lh() == lh
        invariant Wrote(old(cache.trace), disk, mem, ws[..tail])
        invariant tail == 0 ==> cache.trace == old(cache.trace) && cache.disk == old(cache.disk)
      {
        SlotWritten(layout, old(cache.trace), disk, mem, lh, tail, cache.trace, cache.disk, cache.mem);
        LeftSoFar(old(cache.busy), cache.dirty, lh, tail);
        ok := LogOne(tail);
        if !ok {
          return;
        }
        tail := tail + 1;
      }
      assert ws[..tail] == ws && lh[..tail] == lh;
      ok := true;
    }

    /** write_head: the header block takes the in-memory list in one block write; !ok is bget's panic. */
    method WriteHead() returns (ok: bool)
      requires Sound() && AllWords(Lh()) && layout.start !in cache.dirty && Readers()
      modifies cache, cache.buf
      ensures ok <==> old(Room())
      ensures Sound() && Readers() && cache.dirty == old(cache.dirty) && cache.busy == old(cache.busy)
      ensures !ok ==> cache.trace == old(cache.trace) && cache.disk == old(cache.disk) && cache.mem == old(cache.mem)
      ensures ok ==> var hb := Encode(old(cache.mem)[layout.start], Lh());
                     && cache.trace == old(cache.trace) + [Write(layout.start, hb)]
                     && cache.disk == old(cache.disk)[layout.start := hb]
                     && cache.mem == old(cache.mem)[layout.start := hb]
    {
      hide BufCache.Valid, DoRead, GetResultOf, Do, Encode;
      ghost var held := cache.busy;
      cache.CleanBlock(layout.start);
      var r := cache.Bread(layout.start);
      if !r.Got? {
        return false;
      }
      var hb := HeaderBlock(cache.buf[r.i].data);
      StoreAndRelease(r.i, layout.start, hb);
      assert held + {layout.start} - {layout.start} == held;
      ok := true;
    }

    /** A held buffer gets new contents, is written through and released. */
    method StoreAndRelease(i: nat, b: nat, data: Block)
      requires cache.Valid() && cache.Filled() && cache.buf.Length == NBUF + 1 && Shows(i, b)
      modifies cache, cache.buf
      ensures cache.Valid() && cache.Filled() && cache.busy == old(cache.busy) - {b} && cache.dirty == old(cache.dirty) - {b}
      ensures b < old(|cache.disk|) && cache.disk == old(cache.disk)[b := data] && cache.mem == old(cache.mem)[b := data]
      ensures cache.trace == old(cache.trace) + [Write(b, data)]
    {
      hide BufCache.Valid, Do;
      cache.SetData(i, data);
      cache.Bwrite(i);
      cache.Brelse(i);
    }

    /** The header block with the in-memory list stored into it. */
    method HeaderBlock(hdr: Block) returns (hb: Block)
      requires n <= block.Length == LOGSIZE && AllWords(Lh())
      ensures hb == Encode(hdr, Lh())
    {
      hide SetWord;
      ghost var lh := Lh();
      hb := SetWord(hdr, 0, n);
      var i := 0;
      while i < n
        invariant 0 <= i <= n && hb == EncodeUpTo(hdr, lh, i)
      {
        hb := SetWord(hb, i + 1, block[i]);
        i := i + 1;
      }
    }

    /** One turn of install_trans: log slot k goes to its home block, which is unpinned. */
    method InstallOne(k: nat)
      requires Sound() && Entries(layout, |cache.disk|, Lh()) && Readers() && k < n
      requires RoomFor(layout.start + k + 1, Lh()[k])
      modifies cache, cache.buf
      ensures Sound() && Readers() && cache.busy == old(cache.busy) - {Lh()[k]} && cache.dirty == old(cache.dirty) - {Lh()[k]}
      ensures var w := Write(Lh()[k], old(cache.mem)[layout.start + k + 1]);
              && cache.trace == old(cache.trace) + [w]
              && cache.disk == old(cache.disk)[w.bno := w.data]
              && cache.mem == old(cache.mem)[w.bno := w.data]
    {
      hide BufCache.Valid, Elems, Distinct;
      SlotClean(layout, |cache.disk|, Lh(), k);
      var ok := CopyBlock(layout.start + k + 1, block[k], false);
    }

    /** In turn k of install_trans bget finds its buffers. */
    lemma RoomHere(k: nat, held: set<nat>, pinned: bool)
      requires n <= block.Length && k < n && Distinct(Lh()) && cache.busy <= held && cache.dirty == Pins(Lh(), k, pinned)
      requires Ample(held, Lh(), pinned)
      ensures RoomFor(layout.start + k + 1, Lh()[k]) && cache.dirty - {Lh()[k]} == Pins(Lh(), k + 1, pinned)
    {
      hide Pins, Distinct;
      InstallRoom(Lh(), k, held, cache.busy, layout.start + k + 1, pinned);
    }

    /**
     install_trans: the log slots go to their home blocks and unpin them.  In a
     commit the home blocks are pinned; in recovery they are not.
     */
    method InstallTrans()
      requires Sound() && Entries(layout, |cache.disk|, Lh()) && Readers()
      requires (cache.dirty == Elems(Lh()) && Room()) || (cache.dirty == {} && |cache.busy| + 1 < NBUF)
      modifies cache, cache.buf
      ensures Sound() && Readers() && cache.dirty == {} && cache.busy == old(cache.busy) - Elems(Lh())
      ensures Wrote(old(cache.trace), old(cache.disk), old(cache.mem), SlotWrites(layout, old(cache.mem), Lh()))
    {
      hide BufCache.Valid, Apply, InRange, Elems, Distinct, SlotWrites, Pins, Readers, Written, Entries, RoomFor, Ample;
      ghost var lh, mem, disk, held := Lh(), cache.mem, cache.disk, cache.busy;
      EntriesFit(layout, disk, lh);
      ghost var ws := SlotWrites(layout, mem, lh);
      ghost var pinned := cache.dirty == Elems(lh) && Room();
      AmpleStart(held, lh, pinned);
      WrittenNothing(cache.trace, disk, mem, ws);
      InstallStart(layout, mem, lh, pinned);
      NoneLeft(held, lh);
      var tail := 0;
      while tail < n
        invariant 0 <= tail <= n && Sound() && Readers() && Lh() == lh && cache.busy == held - Elems(lh[..tail])
        invariant cache.dirty == Pins(lh, tail, pinned)
        invariant Wrote(old(cache.trace), disk, mem, ws[..tail])
      {
        InstallWritten(layout, old(cache.trace), disk, mem, lh, tail, cache.trace, cache.disk, cache.mem);
        LeftSoFar(held, cache.dirty, lh, tail);
        RoomHere(tail, held, pinned);
        InstallOne(tail);
        tail := tail + 1;
      }
      InstallEnd(lh, ws);
    }

    /** The header block, read and released. */
    method FetchHeader() returns (hb: Block)
      requires Sound() && cache.dirty == {} && layout.start !in cache.busy && Room()
      modifies cache`disk, cache`trace, cache`busy, cache`dirty, cache`order, cache.buf
      ensures Sound() && cache.dirty == {} && cache.busy == old(cache.busy)
      ensures cache.disk == old(cache.disk) && cache.trace == old(cache.trace)
      ensures hb == cache.mem[layout.start]
    {
      hide BufCache.Valid, DoRead, GetResultOf, Do;
      ghost var held := cache.busy;
      cache.CleanBlock(layout.start);
      var r := cache.Bread(layout.start);
      hb := cache.buf[r.i].data;
      cache.Brelse(r.i);
      assert held + {layout.start} - {layout.start} == held;
    }

    /** read_head: the in-memory list becomes the one on disk. */
    method ReadHead()
      requires Sound() && cache.dirty == {} && layout.start !in cache.busy && Room()
      requires GetWord(cache.mem[layout.start], 0) <= LOGSIZE
      modifies cache`disk, cache`trace, cache`busy, cache`dirty, cache`order, cache.buf, block, this`n
      ensures Sound() && cache.dirty == {} && cache.busy == old(cache.busy)
      ensures cache.disk == old(cache.disk) && cache.trace == old(cache.trace)
      ensures Lh() == Decode(cache.mem[layout.start])
    {
      hide BufCache.Valid, GetWord;
      var hb := FetchHeader();
      n := GetWord(hb, 0);
      var i := 0;
      while i < n
        invariant 0 <= i <= n == GetWord(hb, 0)
        invariant forall k :: 0 <= k < i ==> block[k] == GetWord(hb, k + 1)
        modifies block
      {
        block[i] := GetWord(hb, i + 1);
        i := i + 1;
      }
      assert Lh() == Decode(hb);
    }

    /** recover_from_log: exactly the block writes of a recovery of the disk found. */
    method Recover()
      requires Sound() && cache.busy == {} && cache.dirty == {} && cache.mem == cache.disk && GoodHeader(layout, cache.disk)
      modifies cache, cache.buf, block, this`n
      ensures Sound() && cache.busy == {} && cache.dirty == {} && n == 0
      ensures cache.trace == old(cache.trace) + RecoveryWrites(layout, old(cache.disk))
      ensures cache.disk == cache.mem == Recovered(layout, old(cache.disk))
    {
      hide BufCache.Valid, Apply, Decode, Encode;
      ghost var disk := cache.disk;
      assert cache.busy + cache.dirty == {};
      cache.NobodyReads();
      ReadHead();
      cache.NobodyReads();
      InstallTrans();
      InstallKeepsHeader(layout, disk);
      n := 0;
      assert Lh() == [] && cache.busy + cache.dirty == {};
      var ok := WriteHead();
      RecoveredSplit(layout, disk);
    }

    /** write_log and write_head: the transaction is on disk and committed; !ok is bget's panic. */
    method WriteTransaction() returns (ok: bool)
      requires Sound() && Entries(layout, |cache.disk|, Lh()) && 0 < n && cache.dirty == Elems(Lh()) && Readers()
      modifies cache, cache.buf
      ensures ok <==> old(Room())
      ensures Sound() && (ok ==> cache.dirty == old(cache.dirty) && cache.busy == old(cache.busy) - Elems(Lh()) && Readers() && Room())
      ensures !ok ==> cache.trace == old(cache.trace) && cache.disk == old(cache.disk)
      ensures ok ==> var lw, hdr := LogWrites(layout, old(cache.mem), Lh()), Encode(old(cache.mem)[layout.start], Lh());
                     && InRange(lw, old(|cache.disk|))
                     && cache.trace == old(cache.trace) + lw + [Write(layout.start, hdr)]
                     && cache.disk == Apply(old(cache.disk), lw)[layout.start := hdr]
      ensures ok ==> cache.mem == HeaderDisk(layout, old(cache.mem), old(cache.mem), Lh())
    {
      hide BufCache.Valid, Apply, Encode, CommitWrites, LogWrites, HomeWrites, SlotWrites, InRange;
      CommitPieces(layout, cache.mem, cache.mem, Lh());
      ghost var held := cache.busy;
      ok := WriteLog();
      if ok {
        SubsetSize(cache.busy + cache.dirty, held + cache.dirty);
        ok := WriteHead();
      }
    }

    /** install_trans and write_head: the transaction is installed and erased. */
    method EraseTransaction()
      requires Sound() && Entries(layout, |cache.disk|, Lh()) && cache.dirty == Elems(Lh()) && Readers() && Room()
      modifies cache, cache.buf, this`n
      ensures Sound() && Readers() && cache.dirty == {} && n == 0 && cache.busy == old(cache.busy) - old(Elems(Lh()))
      ensures var sw := SlotWrites(layout, old(cache.mem), old(Lh()));
              && InRange(sw, old(|cache.disk|))
              && var hdr := Encode(Apply(old(cache.mem), sw)[layout.start], []);
                 && cache.trace == old(cache.trace) + sw + [Write(layout.start, hdr)]
                 && cache.disk == Apply(old(cache.disk), sw)[layout.start := hdr]
                 && cache.mem == Apply(old(cache.mem), sw)[layout.start := hdr]
    {
      hide BufCache.Valid, Apply, Encode, SlotWrites, InRange;
      ghost var all := cache.busy + cache.dirty;
      InstallTrans();
      SubsetSize(cache.busy + cache.dirty, all);
      n := 0;
      assert Lh() == [];
      var ok := WriteHead();
    }

    /**
     commit: exactly the block writes of CommitWrites, and nothing stays pinned
     or held by readers of the logged blocks, who are waited for;
     !ok is bget's panic before any write, when pinned and held blocks fill the
     cache.
     */
    method Commit() returns (ok: bool)
      requires Sound() && Entries(layout, |cache.disk|, Lh()) && cache.dirty == Elems(Lh()) && Readers()
      modifies cache, cache.buf, this`n
      ensures ok <==> old(n) == 0 || old(Room())
      ensures !ok ==> cache.trace == old(cache.trace) && cache.disk == old(cache.disk)
      ensures ok ==> Sound() && Readers() && Tallied() && cache.dirty == {} && n == 0 && cache.busy == old(cache.busy) - old(Elems(Lh()))
      ensures ok ==> Wrote(old(cache.trace), old(cache.disk), old(cache.mem),
                           CommitWrites(layout, old(cache.mem)[layout.start], old(cache.mem), old(Lh())))
    {
      hide BufCache.Valid, Apply, Encode, LogWrites, HomeWrites, SlotWrites, InRange, Readers, Elems;
      ghost var lh, mem, disk, trace := Lh(), cache.mem, cache.disk, cache.trace;
      ghost var hdr := mem[layout.start];
      if n > 0 {
        CommitPieces(layout, mem, mem, lh);
        CommitPieces(layout, disk, mem, lh);
        ok := WriteTransaction();
        if !ok {
          return;
        }
        EraseTransaction();
        ghost var lw, hw := LogWrites(layout, mem, lh), HomeWrites(mem, lh);
        ghost var h1, h2 := Write(layout.start, Encode(hdr, lh)), Write(layout.start, Encode(Encode(hdr, lh), []));
        Regroup(trace, lw, h1, hw, h2);
        LeftTwice(old(cache.busy), lh);
      } else {
        ApplyNothing(mem);
        ApplyNothing(disk);
        NoneLeft(old(cache.busy), lh);
        assert lh[..0] == lh;
      }
      assert Wrote(trace, disk, mem, CommitWrites(layout, hdr, mem, lh));
      NoneLeft(cache.busy, Lh());
      assert Lh()[..0] == Lh();
      ok := true;
    }

    /** With no reader about, a commit finds its buffers exactly when fewer than NBUF blocks are logged. */
    lemma CommitRoomExact()
      requires Sound() && Entries(layout, |cache.disk|, Lh()) && cache.dirty == Elems(Lh()) && cache.busy == {}
      ensures Room() <==> n < NBUF
    {
      ElemsSize(Lh());
      assert cache.busy + cache.dirty == cache.dirty;
    }

    /** begin_op, one pass under the log lock; a refused caller sleeps and tries again. */
    method BeginOp() returns (admitted: bool)
      requires outstanding >= 0
      modifies this`outstanding
      ensures admitted <==> !committing && n + (old(outstanding) + 1) * MAXOPBLOCKS <= LOGSIZE
      ensures outstanding == old(outstanding) + if admitted then 1 else 0
    {
      if committing {
        return false;
      } else if n + (outstanding + 1) * MAXOPBLOCKS > LOGSIZE {
        return false;
      } else {
        outstanding := outstanding + 1;
        return true;
      }
    }

    /** log_write up to acquire, without the log lock: !ok is either panic. */
    method LogGuard() returns (ok: bool)
      ensures ok <==> n < LOGSIZE && n < layout.size - 1 && outstanding >= 1
    {
      if n >= LOGSIZE || n >= layout.size - 1 {
        return false;
      }
      if outstanding < 1 {
        return false;
      }
      return true;
    }

    /**
     Every listed block and the held one have a buffer each, so the list has a
     place left for a block that is not in it, whatever was logged before.
     */
    lemma PlaceLeft(i: nat)
      requires cache.Valid() && Tallied() && i < NBUF && cache.buf[i].busy && cache.buf[i].blockno !in Lh()
      ensures n < LOGSIZE
    {
      var b := cache.buf[i].blockno;
      cache.HeldIsBusy(i);
      cache.AtMostAll();
      ElemsSize(Lh());
      ElemsSnoc(Lh(), b);
      ElemsSize(Lh() + [b]);
      SubsetSize(Elems(Lh() + [b]), cache.busy + cache.dirty);
    }

    /**
     log_write under the log lock, for the held buffer i: absorbed or appended,
     and pinned.  The list keeps naming exactly the pinned blocks, and never
     runs past its LOGSIZE places, whatever the callers log.
     */
    method LogAppend(i: nat)
      requires cache.Valid() && Tallied() && i < NBUF && cache.buf[i].busy && cache.buf[i].valid && block.Length == LOGSIZE
      modifies this`n, block, cache`dirty, cache.buf
      ensures cache.Valid() && Tallied() && n <= LOGSIZE
      ensures Lh() == GroupCommit.Absorb(old(Lh()), cache.buf[i].blockno)
      ensures cache.dirty == old(cache.dirty) + {cache.buf[i].blockno} && cache.buf[i] == old(cache.buf[i]).(dirty := true)
    {
      assert cache.buf.Length == NBUF + 1;
      ghost var lh, b := Lh(), cache.buf[i].blockno;
      if b !in lh {
        PlaceLeft(i);
      }
      hide BufCache.Valid;
      var k := 0;
      while k < n && block[k] != cache.buf[i].blockno
        invariant 0 <= k <= n && b !in lh[..k]
      {
        k := k + 1;
      }
      assert k == n ==> lh[..k] == lh;
      block[k] := cache.buf[i].blockno;
      if k == n {
        n := n + 1;
        assert Lh() == lh + [b];
        ElemsSnoc(lh, b);
      } else {
        assert Lh() == lh && lh[k] == b;
      }
      cache.Pin(i);
    }

    /** log_write when no other call comes between guard and append: the list stays inside the log region. */
    method LogWrite(i: nat) returns (ok: bool)
      requires cache.Valid() && Tallied() && i < NBUF && cache.buf[i].busy && cache.buf[i].valid && block.Length == LOGSIZE
      modifies this`n, block, cache`dirty, cache.buf
      ensures cache.Valid() && Tallied() && n <= LOGSIZE
      ensures ok <==> old(n) < LOGSIZE && old(n) < layout.size - 1 && outstanding >= 1
      ensures !ok ==> Lh() == old(Lh()) && cache.dirty == old(cache.dirty)
      ensures ok ==> Lh() == GroupCommit.Absorb(old(Lh()), cache.buf[i].blockno) && n < layout.size
      ensures ok ==> cache.dirty == old(cache.dirty) + {cache.buf[i].blockno} && cache.buf[i] == old(cache.buf[i]).(dirty := true)
    {
      hide BufCache.Valid, Elems, Distinct;
      ok := LogGuard();
      if ok {
        LogAppend(i);
      }
    }

    /** end_op: the last call out commits. */
    method EndOp() returns (r: EndOutcome)
      requires outstanding == 1 && !committing ==>
        Sound() && Entries(layout, |cache.disk|, Lh()) && cache.dirty == Elems(Lh()) && Readers()
      requires block.Length == LOGSIZE && n <= LOGSIZE
      modifies this`n, this`outstanding, this`committing, cache, cache.buf
      ensures outstanding == old(outstanding) - 1
      ensures r.Overlap? <==> old(committing)
      ensures r.Left? <==> !old(committing) && outstanding != 0
      ensures r.NoBuffer? <==> !old(committing) && outstanding == 0 && old(n) > 0 && !old(Room())
      ensures r.NoBuffer? ==> committing
      ensures !r.Committed? ==> cache.trace == old(cache.trace) && cache.disk == old(cache.disk)
      ensures r.Left? || r.Overlap? ==> n == old(n) && cache.mem == old(cache.mem) && committing == old(committing)
      ensures r.Committed? ==>
                && Sound() && Tallied() && n == 0 && cache.dirty == {} && cache.busy == old(cache.busy) - old(Elems(Lh())) && !committing
                && Wrote(old(cache.trace), old(cache.disk), old(cache.mem),
                         CommitWrites(layout, old(cache.mem)[layout.start], old(cache.mem), old(Lh())))
    {
      hide BufCache.Valid, CommitWrites, Apply;
      outstanding := outstanding - 1;
      if committing {
        return Overlap;
      }
      if outstanding != 0 {
        return Left;
      }
      committing := true;
      var ok := Commit();
      if !ok {
        return NoBuffer;
      }
      committing := false;
      return Committed;
    }
  }

  /** What end_op does: leaves, commits, or one of two panics (a commit in progress, no buffer for the commit). */
  datatype EndOutcome = Left | Committed | Overlap | NoBuffer

  lemma InstallStart(L: Layout, mem: Disk, lh: seq<nat>, pinned: bool)
    requires L.start + |lh| < |mem|
    ensures |SlotWrites(L, mem, lh)| == |lh| && SlotWrites(L, mem, lh)[..0] == []
    ensures Pins(lh, 0, pinned) == (if pinned then Elems(lh) else {}) && Pins(lh, |lh|, pinned) == {}
  {
    assert lh[0..] == lh && lh[|lh|..] == [];
  }

  lemma EntriesFit(L: Layout, d: Disk, lh: seq<nat>)
    requires Fits(L, d) && Entries(L, |d|, lh)
    ensures L.start + |lh| < |d| && Distinct(lh)
  {
  }

  lemma InstallEnd(lh: seq<nat>, ws: seq<Write>)
    requires |ws| == |lh|
    ensures ws[..|lh|] == ws && lh[..|lh|] == lh
  {
  }

  /** A log slot is no logged block. */
  lemma SlotClean(L: Layout, size: nat, lh: seq<nat>, k: nat)
    requires Entries(L, size, lh) && k < |lh|
    ensures L.start + k + 1 !in Elems(lh) && !Home(L, L.start + k + 1) && lh[k] in Elems(lh)
  {
  }

  /** What stays pinned after k turns of install_trans: in a commit the blocks from k on, in recovery nothing. */
  ghost function Pins(lh: seq<nat>, k: nat, pinned: bool): set<nat>
    requires k <= |lh|
  {
    if pinned then Elems(lh[k..]) else {}
  }

  lemma NoneLeft(held: set<nat>, lh: seq<nat>)
    ensures Elems(lh[..0]) == {} && held - Elems(lh[..0]) == held
  {
  }

  lemma LeftTwice(held: set<nat>, lh: seq<nat>)
    ensures held - Elems(lh) - Elems(lh) == held - Elems(lh)
  {
  }

  /** The readers of the first k logged blocks have left; with them gone bget has no less room. */
  lemma LeftSoFar(held: set<nat>, dirty: set<nat>, lh: seq<nat>, k: nat)
    requires k < |lh|
    ensures var busy := held - Elems(lh[..k]);
            busy <= held && |busy + dirty| <= |held + dirty| && busy - {lh[k]} == held - Elems(lh[..k + 1])
  {
    var busy := held - Elems(lh[..k]);
    SubsetSize(busy + dirty, held + dirty);
    assert lh[..k + 1] == lh[..k] + [lh[k]];
    ElemsSnoc(lh[..k], lh[k]);
  }

  /** Buffers enough for install_trans, with the home blocks pinned or not. */
  ghost predicate Ample(held: set<nat>, lh: seq<nat>, pinned: bool) {
    if pinned then |held + Elems(lh)| < NBUF else |held| + 1 < NBUF
  }

  lemma AmpleStart(held: set<nat>, lh: seq<nat>, pinned: bool)
    requires if pinned then |held + Elems(lh)| < NBUF else |held| + 1 < NBUF
    ensures Ample(held, lh, pinned)
  {
  }

  lemma InstallRoom(lh: seq<nat>, k: nat, held: set<nat>, busy: set<nat>, x: nat, pinned: bool)
    requires Distinct(lh) && k < |lh| && busy <= held
    requires Ample(held, lh, pinned)
    ensures var dirty := Pins(lh, k, pinned);
            && |busy + dirty| < NBUF && (lh[k] in dirty || |busy + {x} + dirty| < NBUF)
            && dirty - {lh[k]} == Pins(lh, k + 1, pinned)
  {
    hide Elems, Distinct;
    var dirty := Pins(lh, k, pinned);
    if pinned {
      PinnedRoom(lh, k, held);
      ElemsTail(lh, k);
    } else {
      assert held + dirty == held && held + {x} + dirty == held + {x};
    }
    SubsetSize(busy + dirty, held + dirty);
    SubsetSize(busy + {x} + dirty, held + {x} + dirty);
  }

  /** The blocks from k on pin no more buffers than the whole list. */
  lemma PinnedRoom(lh: seq<nat>, k: nat, held: set<nat>)
    requires k < |lh| && |held + Elems(lh)| < NBUF
    ensures |held + Elems(lh[k..])| < NBUF && lh[k] in Elems(lh[k..])
  {
    assert lh[k..][0] == lh[k];
    forall x | x in Elems(lh[k..])
      ensures x in Elems(lh)
    {
      var i :| 0 <= i < |lh[k..]| && lh[k..][i] == x;
      assert lh[k + i] == x;
    }
    SubsetSize(held + Elems(lh[k..]), held + Elems(lh));
  }
}
