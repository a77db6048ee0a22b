/**
 A file system call that writes a file, run as one log transaction: whatever
 the crash, the disk that comes back holds the old file or the new one.
 */
module FileCrash {
  import opened Blocks
  import opened LogCrash
  import opened Bitmap
  import opened FileBlocks
  import opened Files
  import opened Collections
  import FileBudget

  /** mkfs puts the log between the super block and the inodes. */
  predicate LogBelow(L: Layout, sb: Super) {
    L.start >= 2 && L.start + L.size <= sb.inodestart
  }

  /** The region of initlog on a disk of mkfs lies there, header included. */
  lemma MkfsLogBelow(d: Disk)
    requires FSSIZE <= |d| <= UINT && d[1] == MkfsSuper(FSSIZE, NINODES, LOGSIZE)
    ensures LogBelow(Layout(GetWord(d[1], 4), GetWord(d[1], 3)), ReadSuper(d))
    ensures GetWord(d[1], 3) == LOGSIZE && GetWord(d[1], 4) == 2
  {
    hide GetWord, MkfsSuper;
    SuperRoundTrip(d, FSSIZE, NINODES, LOGSIZE);
  }

  /** The two disks agree from the inodes on. */
  ghost predicate SameFs(sb: Super, d: Disk, e: Disk) {
    |d| == |e| && forall c :: sb.inodestart <= c < |d| ==> e[c] == d[c]
  }

  /** Bitmap, inodes, block maps and bytes all live from the inodes on. */
  lemma SameFsOwned(sb: Super, d: Disk, e: Disk, inodes: seq<Inode>, trees: seq<Tree>, owner: map<nat, (nat, nat)>)
    requires Owned(sb, d, inodes, trees, owner) && SameFs(sb, d, e)
    ensures Owned(sb, e, inodes, trees, owner)
  {
    forall b: int | 0 <= b < sb.size
      ensures Used(sb, e, b) <==> b < sb.datastart || b in owner
    {
      BitPlace(sb, d, b);
      assert e[sb.bmapstart + b / BPB] == d[sb.bmapstart + b / BPB];
      assert Used(sb, e, b) <==> Used(sb, d, b);
    }
    assert Marked(sb, e, owner);
    forall k | 0 <= k < |inodes|
      ensures Maps(e, inodes[k], trees[k])
    {
      var x := trees[k][MAXFILE];
      assert x != 0 ==> owner[x] == (k, MAXFILE);
      MapsSame(d, e, inodes[k], trees[k]);
    }
  }

  lemma SameFsFiles(sb: Super, d: Disk, e: Disk, inodes: seq<Inode>, trees: seq<Tree>, owner: map<nat, (nat, nat)>, j: nat)
    requires Owned(sb, d, inodes, trees, owner) && SameFs(sb, d, e) && j < |inodes|
    ensures SameFile(d, trees[j], e, trees[j])
    ensures sb.inodestart + j / IPB < |d| && OnDisk(sb, e, j) == OnDisk(sb, d, j)
  {
    forall n | 0 <= n < MAXFILE
      ensures Data(e, trees[j][n]) == Data(d, trees[j][n])
    {
      assert trees[j][n] != 0 ==> owner[trees[j][n]] == (j, n);
    }
    FullSame(d, trees[j], e, trees[j]);
  }

  /** The file system that disk d holds is the one with these inodes and block maps on disk `ref`. */
  ghost predicate Holds(sb: Super, d: Disk, ref: Disk, inodes: seq<Inode>, trees: seq<Tree>, owner: map<nat, (nat, nat)>) {
    && Owned(sb, d, inodes, trees, owner)
    && forall j :: 0 <= j < |inodes| ==> SameFile(ref, trees[j], d, trees[j]) && SameInode(sb, ref, d, j)
  }

  ghost predicate SameInode(sb: Super, d: Disk, e: Disk, j: nat) {
    sb.inodestart + j / IPB < |d| == |e| && OnDisk(sb, e, j) == OnDisk(sb, d, j)
  }

  lemma SameFsHolds(sb: Super, L: Layout, ref: Disk, d: Disk, inodes: seq<Inode>, trees: seq<Tree>, owner: map<nat, (nat, nat)>)
    requires LogBelow(L, sb) && Owned(sb, ref, inodes, trees, owner) && SameHome(L, d, ref)
    ensures Holds(sb, d, ref, inodes, trees, owner)
  {
    assert SameFs(sb, ref, d);
    SameFsOwned(sb, ref, d, inodes, trees, owner);
    forall j | 0 <= j < |inodes|
      ensures SameFile(ref, trees[j], d, trees[j]) && SameInode(sb, ref, d, j)
    {
      SameFsFiles(sb, ref, d, inodes, trees, owner, j);
    }
  }

  /** The transaction logged every home block that it changed. */
  ghost predicate LoggedAll(L: Layout, base: Disk, mem: Disk, lh: seq<nat>) {
    |mem| == |base| && forall b :: 0 <= b < |base| && Home(L, b) && mem[b] != base[b] ==> b in lh
  }

  /** lh is the list in the log header for these logged blocks. */
  ghost predicate Lists(lh: seq<nat>, logged: set<nat>) {
    Distinct(lh) && forall b :: b in lh <==> b in logged
  }

  lemma {:induction false} ListSize(lh: seq<nat>, logged: set<nat>)
    requires Lists(lh, logged)
    ensures |lh| == |logged|
  {
    if lh == [] {
      assert logged == {};
    } else {
      var rest, b := lh[..|lh| - 1], lh[|lh| - 1];
      assert lh == rest + [b];
      forall c
        ensures c in rest <==> c in logged - {b}
      {
      }
      ListSize(rest, logged - {b});
    }
  }

  /** What the file layer logged is what the transaction changed, all of it outside the log region. */
  lemma LoggedIsTransaction(sb: Super, L: Layout, base: Disk, mem: Disk, logged: set<nat>, lh: seq<nat>)
    requires LogBelow(L, sb) && Logged(sb, base, {}, mem, logged) && Lists(lh, logged) && |lh| <= LOGSIZE && |lh| < L.size
    ensures Entries(L, |mem|, lh) && LoggedAll(L, base, mem, lh)
  {
    forall i | 0 <= i < |lh|
      ensures lh[i] < |mem| && Home(L, lh[i])
    {
      assert lh[i] in logged;
    }
  }

  /** The disk after a crash k block writes into the commit, any interrupted boots and one full recovery. */
  ghost function AfterCrash(L: Layout, base: Disk, mem: Disk, lh: seq<nat>, k: nat, crashes: seq<nat>): Disk
    requires GoodHeader(L, base) && Decode(base[L.start]) == [] && |mem| == |base| && Entries(L, |mem|, lh)
    requires k <= |CommitWrites(L, base[L.start], mem, lh)|
  {
    CrashAtomicity(L, base, mem, lh, k, crashes);
    Recovered(L, Reboots(L, Apply(base, CommitWrites(L, base[L.start], mem, lh)[..k]), crashes))
  }

  /** A transaction from one file system to another is all or nothing, whatever the crash. */
  lemma TransactionAtomic(sb: Super, L: Layout, base: Disk, ips: seq<Inode>, ts: seq<Tree>, own: map<nat, (nat, nat)>,
                          mem: Disk, jps: seq<Inode>, us: seq<Tree>, own': map<nat, (nat, nat)>,
                          lh: seq<nat>, k: nat, crashes: seq<nat>)
    requires LogBelow(L, sb) && Owned(sb, base, ips, ts, own) && Owned(sb, mem, jps, us, own')
    requires GoodHeader(L, base) && Decode(base[L.start]) == [] && Entries(L, |mem|, lh) && LoggedAll(L, base, mem, lh)
    requires k <= |CommitWrites(L, base[L.start], mem, lh)|
    ensures if k <= |lh| then Holds(sb, AfterCrash(L, base, mem, lh, k, crashes), base, ips, ts, own)
            else Holds(sb, AfterCrash(L, base, mem, lh, k, crashes), mem, jps, us, own')
  {
    CrashAtomicity(L, base, mem, lh, k, crashes);
    var d := AfterCrash(L, base, mem, lh, k, crashes);
    hide Owned, GoodHeader, Recovered, Reboots, CommitWrites, AfterCrash, Holds;
    if k <= |lh| {
      SameFsHolds(sb, L, base, d, ips, ts, own);
    } else {
      assert SameHome(L, d, mem);
      SameFsHolds(sb, L, mem, d, jps, us, own');
    }
  }

  /** What the disk d after a crash c block writes into the commit holds: the old file or the spliced one, and the other files. */
  ghost predicate OldOrNew(sb: Super, v: Image, w: Image, f: nat, off: nat, src: seq<Byte>, committed: bool, d: Disk)
    requires Wrote(sb, v.d, v.ips, v.ts, w.d, w.ips, w.ts, f, off, src)
  {
    var was := Full(v.d, v.ts[f])[..v.ips[f].size];
    && (if committed then Synced(sb, d, w.ips, f) && Full(d, w.ts[f])[..w.ips[f].size] == Splice(was, off, src)
        else Synced(sb, d, v.ips, f) && Full(d, v.ts[f])[..v.ips[f].size] == was)
    && forall j :: 0 <= j < |v.ips| && j != f ==> w.ts[j] == v.ts[j] && SameFile(v.d, v.ts[j], d, v.ts[j])
  }

  /**
   writei in a transaction: after any crash, the file read through the inode
   on disk is the old one or the spliced one, and no other file has changed.
   The transaction has to fit the log; that it logs what it changes is proved.
   */
  lemma WriteAtomic(sb: Super, L: Layout, v: Image, w: Image, f: nat, off: nat, src: seq<Byte>, lh: seq<nat>, c: nat, crashes: seq<nat>)
    requires LogBelow(L, sb) && Owned(sb, v.d, v.ips, v.ts, v.owner) && Owned(sb, w.d, w.ips, w.ts, w.owner)
    requires Wrote(sb, v.d, v.ips, v.ts, w.d, w.ips, w.ts, f, off, src) && Synced(sb, v.d, v.ips, f)
    requires GoodHeader(L, v.d) && Decode(v.d[L.start]) == []
    requires Logged(sb, v.d, {}, w.d, w.log) && Lists(lh, w.log) && |lh| <= LOGSIZE && |lh| < L.size
    ensures Entries(L, |w.d|, lh)
    ensures c <= |CommitWrites(L, v.d[L.start], w.d, lh)| ==>
              OldOrNew(sb, v, w, f, off, src, c > |lh|, AfterCrash(L, v.d, w.d, lh, c, crashes))
  {
    LoggedIsTransaction(sb, L, v.d, w.d, w.log, lh);
    if c <= |CommitWrites(L, v.d[L.start], w.d, lh)| {
      TransactionAtomic(sb, L, v.d, v.ips, v.ts, v.owner, w.d, w.ips, w.ts, w.owner, lh, c, crashes);
      WriteHolds(sb, v, w, f, off, src, c > |lh|, AfterCrash(L, v.d, w.d, lh, c, crashes));
    }
  }

  lemma WriteHolds(sb: Super, v: Image, w: Image, f: nat, off: nat, src: seq<Byte>, committed: bool, d: Disk)
    requires Wrote(sb, v.d, v.ips, v.ts, w.d, w.ips, w.ts, f, off, src) && Synced(sb, v.d, v.ips, f)
    requires if committed then Holds(sb, d, w.d, w.ips, w.ts, w.owner) else Holds(sb, d, v.d, v.ips, v.ts, v.owner)
    ensures OldOrNew(sb, v, w, f, off, src, committed, d)
  {
    hide Owned, Full, Splice, OnDisk;
    if committed {
      assert SameFile(w.d, w.ts[f], d, w.ts[f]) && SameInode(sb, w.d, d, f);
      forall j | 0 <= j < |v.ips| && j != f
        ensures w.ts[j] == v.ts[j] && SameFile(v.d, v.ts[j], d, v.ts[j])
      {
        assert SameFile(w.d, w.ts[j], d, w.ts[j]);
      }
    } else {
      assert SameFile(v.d, v.ts[f], d, v.ts[f]) && SameInode(sb, v.d, d, f);
    }
  }

  /** Every crash of the transaction that logged lh leaves the old file or the new one. */
  ghost predicate CrashSafe(sb: Super, L: Layout, v: Image, w: Image, f: nat, off: nat, src: seq<Byte>, lh: seq<nat>) {
    && GoodHeader(L, v.d) && Decode(v.d[L.start]) == [] && |w.d| == |v.d| && Entries(L, |w.d|, lh)
    && Wrote(sb, v.d, v.ips, v.ts, w.d, w.ips, w.ts, f, off, src)
    && forall c: nat, crashes: seq<nat> :: c <= |CommitWrites(L, v.d[L.start], w.d, lh)| ==>
         OldOrNew(sb, v, w, f, off, src, c > |lh|, AfterCrash(L, v.d, w.d, lh, c, crashes))
  }

  /**
   A chunk of filewrite as a transaction of its own, on a disk with one bitmap
   block and a log region that holds it: whatever it logs fits, and every crash
   leaves the old file or the new one.
   */
  method WriteChunkLogged(fs: FileSystem, k: nat, src: seq<Byte>, off: nat, ghost L: Layout) returns (r: Transfer)
    requires fs.Valid() && k < |fs.inodes| && fs.Whole(k) && Synced(fs.sb, fs.disk, fs.inodes, k)
    requires off < UINT && |src| <= FileBudget.CHUNK && fs.sb.size <= BPB && fs.logged == {}
    requires LogBelow(L, fs.sb) && L.size > 17 && GoodHeader(L, fs.disk) && Decode(fs.disk[L.start]) == []
    modifies fs
    ensures r.Moved? ==> |fs.logged| == FileBudget.LogCount(old(fs.inodes)[k].size, off, |src|) <= 17
    ensures r.Moved? ==> forall lh: seq<nat> :: Lists(lh, fs.logged) ==> CrashSafe(fs.sb, L, old(Now(fs)), Now(fs), k, off, src, lh)
  {
    ghost var v := Now(fs);
    r := FileBudget.CountedWrite(fs, k, src, off);
    ghost var w := Now(fs);
    if r.Moved? {
      FileBudget.ChunkFitsLog(v.ips[k].size, off, |src|);
      forall lh: seq<nat> | Lists(lh, w.log)
        ensures CrashSafe(fs.sb, L, v, w, k, off, src, lh)
      {
        ListSize(lh, w.log);
        ChunkSafe(fs.sb, L, v, w, k, off, src, lh);
      }
    }
  }

  lemma ChunkSafe(sb: Super, L: Layout, v: Image, w: Image, f: nat, off: nat, src: seq<Byte>, lh: seq<nat>)
    requires LogBelow(L, sb) && Owned(sb, v.d, v.ips, v.ts, v.owner) && Owned(sb, w.d, w.ips, w.ts, w.owner)
    requires Wrote(sb, v.d, v.ips, v.ts, w.d, w.ips, w.ts, f, off, src) && Synced(sb, v.d, v.ips, f)
    requires GoodHeader(L, v.d) && Decode(v.d[L.start]) == []
    requires Logged(sb, v.d, {}, w.d, w.log) && Lists(lh, w.log) && |lh| <= LOGSIZE && |lh| < L.size
    ensures CrashSafe(sb, L, v, w, f, off, src, lh)
  {
    WriteAtomic(sb, L, v, w, f, off, src, lh, 0, []);
    forall c: nat, crashes: seq<nat> | c <= |CommitWrites(L, v.d[L.start], w.d, lh)|
      ensures OldOrNew(sb, v, w, f, off, src, c > |lh|, AfterCrash(L, v.d, w.d, lh, c, crashes))
    {
      WriteAtomic(sb, L, v, w, f, off, src, lh, c, crashes);
    }
  }
}
