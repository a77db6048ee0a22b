/**
 How many blocks writei logs, against the budget of MAXOPBLOCKS that begin_op
 reserves for a call and the chunk size that filewrite (file.c) chooses.
 */
module FileBudget {
  import opened Blocks
  import opened Bitmap
  import opened FileBlocks
  import opened Files
  import LogCrash

  const MAXOPBLOCKS := LogCrash.MAXOPBLOCKS

  /** The chunk of filewrite, computed from LOGSIZE. */
  const CHUNK: nat := (LogCrash.LOGSIZE - 1 - 1 - 2) / 2 * 512

  /** The file blocks that n bytes at off reach. */
  function Span(off: nat, n: nat): nat {
    LastBlock(off, off + n) - off / BSIZE
  }

  /**
   The blocks that writei of n bytes at off logs in a file of the given size:
   the file blocks, the bitmap block and the indirect block when it allocates
   them, the inode's block when the file grows.
   */
  function LogCount(size: nat, off: nat, n: nat): nat {
    var last := if n == 0 then 0 else (off + n - 1) / BSIZE;
    Span(off, n) + (if n > 0 && last * BSIZE >= size then (if last >= NDIRECT then 2 else 1) else 0)
    + (if n > 0 && off + n > size then 1 else 0)
  }

  // ---------- The count ----------

  /** Distinct file blocks are distinct blocks. */
  lemma {:induction false} DataCount(sb: Super, trees: seq<Tree>, owner: map<nat, (nat, nat)>, k: nat, lo: nat, hi: nat)
    requires Partition(sb, trees, owner) && k < |trees| && lo <= hi <= MAXFILE
    requires forall i :: lo <= i < hi ==> trees[k][i] != 0
    ensures |DataBlocks(trees[k], lo, hi)| == hi - lo
  {
    var u := trees[k];
    if lo == hi {
      assert DataBlocks(u, lo, hi) == {};
    } else {
      DataCount(sb, trees, owner, k, lo, hi - 1);
      forall i | lo <= i < hi - 1
        ensures u[i] != u[hi - 1]
      {
        assert owner[u[i]] == (k, i) && owner[u[hi - 1]] == (k, hi - 1);
      }
      assert DataBlocks(u, lo, hi) == DataBlocks(u, lo, hi - 1) + {u[hi - 1]};
    }
  }

  /** The data blocks, the indirect block, the bitmap and the inodes lie apart. */
  lemma FootprintApart(sb: Super, d: Disk, inodes: seq<Inode>, trees: seq<Tree>, owner: map<nat, (nat, nat)>, k: nat, lo: nat, hi: nat)
    requires Owned(sb, d, inodes, trees, owner) && k < |inodes| && lo <= hi <= MAXFILE
    requires forall i :: lo <= i < hi ==> trees[k][i] != 0
    ensures forall c :: c in DataBlocks(trees[k], lo, hi) ==> sb.datastart <= c
    ensures trees[k][MAXFILE] != 0 ==> sb.datastart <= trees[k][MAXFILE] && trees[k][MAXFILE] !in DataBlocks(trees[k], lo, hi)
    ensures sb.inodestart + k / IPB < sb.bmapstart < sb.datastart
  {
    var u := trees[k];
    forall c | c in DataBlocks(u, lo, hi)
      ensures sb.datastart <= c && c != u[MAXFILE]
    {
      var i :| lo <= i < hi && c == u[i];
      assert owner[u[i]] == (k, i) && (u[MAXFILE] != 0 ==> owner[u[MAXFILE]] == (k, MAXFILE));
    }
    assert u[MAXFILE] != 0 ==> owner[u[MAXFILE]] == (k, MAXFILE);
  }

  lemma CountParts(a: set<nat>, x: nat, y: nat, z: nat, p: bool, q: bool, r: bool)
    requires x !in a && z !in a && x != z && (q ==> y !in a && y != x && y != z)
    ensures |a + (if p then {x} else {}) + (if q then {y} else {}) + (if r then {z} else {})|
            == |a| + (if p then 1 else 0) + (if q then 1 else 0) + (if r then 1 else 0)
  {
  }

  /** Exactly LogCount blocks are logged. */
  lemma FootprintCount(sb: Super, d: Disk, inodes: seq<Inode>, trees: seq<Tree>, owner: map<nat, (nat, nat)>, k: nat, size: nat, off: nat, n: nat)
    requires Owned(sb, d, inodes, trees, owner) && k < |inodes| && off <= size && off + n <= MAXBYTES
    requires NoHoles(trees[k], Max(size, off + n))
    ensures |Footprint(sb, trees[k], k, size, off, n)| == LogCount(size, off, n)
  {
    var u, lo, hi := trees[k], off / BSIZE, LastBlock(off, off + n);
    SpanMapped(u, size, off, n, lo, hi);
    DataCount(sb, trees, owner, k, lo, hi);
    FootprintApart(sb, d, inodes, trees, owner, k, lo, hi);
    PartsCount(sb, u, k, size, off, n, lo, hi);
  }

  lemma PartsCount(sb: Super, u: Tree, k: nat, size: nat, off: nat, n: nat, lo: nat, hi: nat)
    requires |u| == MAXFILE + 1 && off + n <= MAXBYTES && lo == off / BSIZE && hi == LastBlock(off, off + n) && lo <= hi
    requires |DataBlocks(u, lo, hi)| == hi - lo && (forall c :: c in DataBlocks(u, lo, hi) ==> sb.datastart <= c)
    requires u[MAXFILE] != 0 ==> sb.datastart <= u[MAXFILE] && u[MAXFILE] !in DataBlocks(u, lo, hi)
    requires n > 0 && (off + n - 1) / BSIZE >= NDIRECT ==> u[MAXFILE] != 0
    requires sb.inodestart + k / IPB < sb.bmapstart < sb.datastart
    ensures |Footprint(sb, u, k, size, off, n)| == LogCount(size, off, n)
  {
    hide DataBlocks, LastBlock, Footprint, LogCount;
    var last := if n == 0 then 0 else (off + n - 1) / BSIZE;
    FootprintParts(sb, u, k, size, off, n, last);
    CountOfParts(size, off, n, last);
    hide *;
    var p, q, r := n > 0 && last * BSIZE >= size, n > 0 && last * BSIZE >= size && last >= NDIRECT, n > 0 && off + n > size;
    CountParts(DataBlocks(u, lo, hi), sb.bmapstart, u[MAXFILE], sb.inodestart + k / IPB, p, q, r);
  }

  lemma FootprintParts(sb: Super, u: Tree, k: nat, size: nat, off: nat, n: nat, last: nat)
    requires |u| == MAXFILE + 1 && off + n <= MAXBYTES && last == if n == 0 then 0 else (off + n - 1) / BSIZE
    ensures Footprint(sb, u, k, size, off, n)
            == DataBlocks(u, off / BSIZE, LastBlock(off, off + n)) + (if n > 0 && last * BSIZE >= size then {sb.bmapstart} else {})
               + (if n > 0 && last * BSIZE >= size && last >= NDIRECT then {u[MAXFILE]} else {})
               + (if n > 0 && off + n > size then {sb.inodestart + k / IPB} else {})
  {
    hide DataBlocks, LastBlock;
  }

  lemma CountOfParts(size: nat, off: nat, n: nat, last: nat)
    requires last == if n == 0 then 0 else (off + n - 1) / BSIZE
    ensures LogCount(size, off, n)
            == LastBlock(off, off + n) - off / BSIZE + (if n > 0 && last * BSIZE >= size then 1 else 0)
               + (if n > 0 && last * BSIZE >= size && last >= NDIRECT then 1 else 0) + (if n > 0 && off + n > size then 1 else 0)
  {
    hide LastBlock;
  }

  lemma SpanMapped(u: Tree, size: nat, off: nat, n: nat, lo: nat, hi: nat)
    requires NoHoles(u, Max(size, off + n)) && off <= size && off + n <= MAXBYTES && lo == off / BSIZE && hi == LastBlock(off, off + n)
    ensures lo <= hi <= MAXFILE && forall i :: lo <= i < hi ==> u[i] != 0
    ensures n > 0 && (off + n - 1) / BSIZE >= NDIRECT ==> u[MAXFILE] != 0
  {
  }

  // ---------- The budget ----------

  /** A call of writei in a transaction of its own, and the number of blocks it logs. */
  method CountedWrite(fs: FileSystem, k: nat, src: seq<Byte>, off: nat) returns (r: Transfer)
    requires fs.Valid() && k < |fs.inodes| && fs.Whole(k) && off < UINT && |src| < UINT
    requires fs.sb.size <= BPB && fs.logged == {}
    modifies fs
    ensures r.Moved? ==> |fs.logged| == LogCount(old(fs.inodes)[k].size, off, |src|)
    ensures fs.Valid() && Logged(fs.sb, old(fs.disk), {}, fs.disk, fs.logged)
    ensures r.Moved? ==> Wrote(fs.sb, old(fs.disk), old(fs.inodes), old(fs.trees), fs.disk, fs.inodes, fs.trees, k, off, src)
  {
    hide Owned, Full, NoHoles, FreeCount, Growth, Wrote, Footprint, LogCount, Logged;
    ghost var v := Now(fs);
    r := fs.Writei(k, src, off);
    if r.Moved? {
      WroteContent(fs.sb, v.d, v.ips, v.ts, fs.disk, fs.inodes, fs.trees, k, off, src);
      FootprintCount(fs.sb, fs.disk, fs.inodes, fs.trees, fs.owner, k, v.ips[k].size, off, |src|);
    }
  }

  /** Whatever the file and the offset, a writei of n bytes keeps to the budget. */
  ghost predicate AlwaysInBudget(n: nat) {
    forall size: nat, off: nat :: off <= size && off + n <= MAXBYTES ==> LogCount(size, off, n) <= MAXOPBLOCKS
  }

  /** The first chunk that filewrite passes to writei. */
  function FirstChunk(n: nat): nat {
    if n > CHUNK then CHUNK else n
  }

  lemma SpanBound(off: nat, n: nat)
    ensures Span(off, n) <= (n + 510) / BSIZE + 1
  {
    if n > 0 {
      assert off / BSIZE * BSIZE + off % BSIZE == off;
      assert off + n - 1 <= off / BSIZE * BSIZE + 511 + n - 1;
      assert (off + n - 1) / BSIZE <= off / BSIZE + (n + 510) / BSIZE;
    }
  }

  /** Nothing filewrite passes to writei logs more than the log region of mkfs holds. */
  lemma ChunkFitsLog(size: nat, off: nat, n: nat)
    requires n <= CHUNK
    ensures LogCount(size, off, n) <= 17 < LogCrash.LOGSIZE
  {
    hide Span;
    SpanBound(off, n);
  }

  /** A full chunk is over the budget for every file and every offset. */
  lemma ChunkOverBudget(size: nat, off: nat)
    ensures LogCount(size, off, CHUNK) > MAXOPBLOCKS
  {
    assert (off + CHUNK - 1) / BSIZE >= off / BSIZE + 12;
  }

  /** filewrite sizes its chunks by LOGSIZE where the budget is MAXOPBLOCKS: only short writes always keep to it. */
  lemma FilewriteExact(n: nat)
    ensures AlwaysInBudget(FirstChunk(n)) <==> n <= 3073
  {
    var m := FirstChunk(n);
    if n <= 3073 {
      forall size: nat, off: nat | off <= size && off + m <= MAXBYTES
        ensures LogCount(size, off, m) <= MAXOPBLOCKS
      {
        SpanBound(off, m);
      }
    } else {
      var off := 6655;
      assert (off + m - 1) / BSIZE >= 19;
      assert LogCount(off, off, m) > MAXOPBLOCKS && off + m <= MAXBYTES;
    }
  }
}
