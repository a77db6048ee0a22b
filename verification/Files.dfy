/** The block allocator, block maps and byte files of fs.c, updating disk and inodes in place. */
module Files {
  import opened Blocks
  import opened Bitmap
  import opened FileBlocks

  const T_DEV: nat := 3

  /** What bmap gives: a block, or one of its two panics. */
  datatype Bno = At(b: nat) | OutOfRange | OutOfBlocks

  /** A file system at one moment. */
  datatype Image = Image(d: Disk, ips: seq<Inode>, ts: seq<Tree>, owner: map<nat, (nat, nat)>, log: set<nat>)

  ghost function Now(fs: FileSystem): Image
    reads fs
  {
    Image(fs.disk, fs.inodes, fs.trees, fs.owner, fs.logged)
  }

  /** What readi and writei give: a byte count, -1, the device switch, or a panic below. */
  datatype Transfer = Moved(n: nat) | Refused | ToDevice | Panic

  /** The tree after bmap served file block bn. */
  ghost predicate Served(t: Tree, u: Tree, bn: nat) {
    && |t| == |u| == MAXFILE + 1 && bn < MAXFILE && u[bn] != 0
    && (forall i :: 0 <= i < MAXFILE && i != bn ==> u[i] == t[i])
    && (u[MAXFILE] != 0 <==> t[MAXFILE] != 0 || bn >= NDIRECT)
    && (t[MAXFILE] != 0 ==> u[MAXFILE] == t[MAXFILE])
    && (t[bn] != 0 ==> u == t)
  }

  /**
   The disk went from d to e and the set of logged blocks from l to m: every
   changed block is logged, and only blocks of the file system were.
   */
  ghost predicate Logged(sb: Super, d: Disk, l: set<nat>, e: Disk, m: set<nat>) {
    && |d| == |e| && l <= m
    && (forall c :: 0 <= c < |d| && e[c] != d[c] ==> c in m)
    && forall c :: c in m && c !in l ==> sb.inodestart <= c < |d|
  }

  /** The bitmap block with the bit of block b. */
  function BitBlock(sb: Super, b: nat): nat {
    sb.bmapstart + b / BPB
  }

  /** The blocks that bmap logs when it serves file block bn. */
  function NewBlocks(sb: Super, t: Tree, u: Tree, bn: nat): set<nat>
    requires |t| == |u| == MAXFILE + 1 && bn < MAXFILE
  {
    if t[bn] != 0 then {}
    else
      {BitBlock(sb, u[bn]), u[bn]} + (if bn < NDIRECT then {} else {u[MAXFILE]})
      + (if bn < NDIRECT || t[MAXFILE] != 0 then {} else {BitBlock(sb, u[MAXFILE])})
  }

  /** Blocks below the bitmap, with the inodes among them, are as they were. */
  ghost predicate LowSame(sb: Super, d: Disk, e: Disk) {
    |d| == |e| && forall c :: 0 <= c < sb.bmapstart && c < |d| ==> e[c] == d[c]
  }

  /** Every inode as the disk has it. */
  function AllInodes(sb: Super, d: Disk): (r: seq<Inode>)
    requires Good(sb, d)
    ensures |r| == sb.ninodes
    ensures forall k :: 0 <= k < |r| ==> sb.inodestart + k / IPB < |d| && r[k] == OnDisk(sb, d, k)
  {
    seq(sb.ninodes, k requires 0 <= k < sb.ninodes => OnDisk(sb, d, k))
  }

  /** The number of free blocks. */
  ghost function FreeCount(sb: Super, d: Disk): nat {
    |FreeSet(sb, d)|
  }

  /** The blocks that bmap has to allocate for file block bn. */
  function Needs(t: Tree, bn: nat): nat
    requires |t| == MAXFILE + 1 && bn < MAXFILE
  {
    if t[bn] != 0 then 0 else if bn < NDIRECT || t[MAXFILE] != 0 then 1 else 2
  }

  /** The blocks of a file of this size without holes, the indirect block included. */
  function BlocksOf(size: nat): nat {
    (size + BSIZE - 1) / BSIZE + if size > NDIRECT * BSIZE then 1 else 0
  }

  /** The inner loop of balloc: the first clear bit among the first `limit` ones, or `limit`. */
  method FirstClear(data: Block, limit: nat) returns (bi: nat)
    requires limit <= BPB
    ensures bi <= limit && forall c :: 0 <= c < bi ==> TestBit(data[c / 8], c % 8)
    ensures bi < limit ==> !TestBit(data[bi / 8], bi % 8)
  {
    hide TestBit;
    bi := 0;
    while bi < limit
      invariant 0 <= bi <= limit && forall c :: 0 <= c < bi ==> TestBit(data[c / 8], c % 8)
    {
      if !TestBit(data[bi / 8], bi % 8) {
        return;
      }
      bi := bi + 1;
    }
  }

  class FileSystem {
    const sb: Super
    var disk: Disk
    var inodes: seq<Inode>
    ghost var trees: seq<Tree>
    ghost var owner: map<nat, (nat, nat)>

    /** The blocks that the current transaction passed to log_write. */
    ghost var logged: set<nat>

    /** Every block named by an inode is marked and has one owner. */
    ghost predicate Valid()
      reads this
    {
      Owned(sb, disk, inodes, trees, owner)
    }

    /** iinit's readsb, and every inode read from its slot as ilock does, on a disk in order. */
    constructor (d: Disk, ghost trees: seq<Tree>, ghost owner: map<nat, (nat, nat)>)
      requires |d| >= 2 && Good(ReadSuper(d), d)
      requires Owned(ReadSuper(d), d, AllInodes(ReadSuper(d), d), trees, owner)
      ensures Valid() && sb == ReadSuper(d) && disk == d && this.trees == trees && this.owner == owner && logged == {}
      ensures |inodes| == sb.ninodes && forall k :: 0 <= k < |inodes| ==> Synced(sb, disk, inodes, k)
    {
      sb, disk, this.trees, this.owner := ReadSuper(d), d, trees, owner;
      inodes, logged := AllInodes(ReadSuper(d), d), {};
    }

    /** The end of balloc: mark the block in its bitmap block and zero it. */
    method MarkAndZero(bno: nat, bi: nat, b: nat)
      requires Good(sb, disk) && b < sb.size && bno == BitBlock(sb, b) < |disk| && bi == b % BPB
      modifies this`disk, this`logged
      ensures disk == Allocated(sb, old(disk), b) && logged == old(logged) + {BitBlock(sb, b)} + {b}
    {
      hide PutBit;
      disk, logged := disk[bno := PutBlock(disk[bno], bi, true)], logged + {bno};
      disk, logged := disk[b := ZeroBlock()], logged + {b};
    }

    /** balloc: the first free block, marked and zeroed; !ok is its panic. */
    method Balloc() returns (ok: bool, b: nat)
      requires Good(sb, disk)
      modifies this`disk, this`logged
      ensures ok <==> exists c :: 0 <= c < sb.size && !Used(sb, old(disk), c)
      ensures ok ==> b < sb.size && !Used(sb, old(disk), b) && forall c :: 0 <= c < b ==> Used(sb, old(disk), c)
      ensures ok ==> sb.bmapstart + b / BPB < |old(disk)| && disk == Allocated(sb, old(disk), b)
      ensures !ok ==> disk == old(disk)
      ensures logged == if ok then old(logged) + {BitBlock(sb, b)} + {b} else old(logged)
      ensures ok <==> FreeCount(sb, old(disk)) > 0
    {
      hide Used, TestBit, PutBit, FreeCount, Allocated;
      FreeExists(sb, disk);
      var base := 0;
      while base < sb.size
        invariant base % BPB == 0 && disk == old(disk) && logged == old(logged)
        invariant forall c :: 0 <= c < base && c < sb.size ==> Used(sb, disk, c)
      {
        BitPlace(sb, disk, base);
        var bno := sb.bmapstart + base / BPB;
        var limit := if sb.size - base < BPB then sb.size - base else BPB;
        var bi := FirstClear(disk[bno], limit);
        FirstFree(sb, disk, base, bno, bi, limit);
        if bi < limit {
          MarkAndZero(bno, bi, base + bi);
          return true, base + bi;
        }
        base := base + BPB;
      }
      return false, 0;
    }

    /** bfree: clears the bit; !ok is the panic on a free block. */
    method Bfree(b: nat) returns (ok: bool)
      requires Good(sb, disk) && b < sb.size
      modifies this`disk, this`logged
      ensures ok == Used(sb, old(disk), b)
      ensures sb.bmapstart + b / BPB < |old(disk)|
      ensures disk == if ok then Mark(sb, old(disk), b, false) else old(disk)
      ensures logged == if ok then old(logged) + {BitBlock(sb, b)} else old(logged)
    {
      BitPlace(sb, disk, b);
      var bno, bi := sb.bmapstart + b / BPB, b % BPB;
      if !TestBit(disk[bno][bi / 8], bi % 8) {
        return false;
      }
      disk, logged := disk[bno := PutBlock(disk[bno], bi, false)], logged + {bno};
      return true;
    }

    /** A new block for field i of inode k: a direct block, or the indirect block for i = MAXFILE. */
    method AddDirect(k: nat, i: nat) returns (ok: bool)
      requires Valid() && k < |inodes| && (i < NDIRECT || i == MAXFILE) && trees[k][i] == 0
      modifies this
      ensures Valid() && SameFiles(old(disk), old(trees), disk, trees) && LowSame(sb, old(disk), disk)
      ensures !ok ==> disk == old(disk) && inodes == old(inodes) && trees == old(trees)
      ensures ok <==> FreeCount(sb, old(disk)) > 0
      ensures ok ==> FreeCount(sb, disk) == FreeCount(sb, old(disk)) - 1
      ensures ok ==> exists b :: b != 0 && trees == Plant(old(trees), k, i, b) && inodes == old(inodes)[k := SetAddr(old(inodes)[k], i, b)]
      ensures Logged(sb, old(disk), old(logged), disk, logged)
      ensures k < |trees| && i < |trees[k]|
      ensures logged == if ok then old(logged) + {BitBlock(sb, trees[k][i])} + {trees[k][i]} else old(logged)
    {
      hide Used, Allocated, SameFiles, Partition, Marked, Maps, FreeSet;
      ghost var d := disk;
      assert InodeOk(inodes[k]) && |trees[k]| == MAXFILE + 1 by {
        InodeFine(sb, d, inodes, trees, owner, k);
      }
      LoggedSelf(sb, d, logged);
      var b;
      ok, b := Balloc();
      if ok {
        PlantDirect(sb, d, inodes, trees, owner, k, i, b);
        AllocatedMarked(sb, d, owner, b, (k, i));
        AllocatedFree(sb, d, b);
        LowAllocated(sb, d, b);
        LoggedAlloc(sb, d, old(logged), b);
        inodes := inodes[k := SetAddr(inodes[k], i, b)];
        trees, owner := Plant(trees, k, i, b), owner[b := (k, i)];
      } else {
        SameAll(sb, d, inodes, trees, owner);
      }
    }

    /** A new block for entry n of the indirect block of inode k. */
    method AddEntry(k: nat, n: nat) returns (ok: bool)
      requires Valid() && k < |inodes| && NDIRECT <= n < MAXFILE && trees[k][n] == 0 && trees[k][MAXFILE] != 0
      modifies this`disk, this`trees, this`owner, this`logged
      ensures Valid() && SameFiles(old(disk), old(trees), disk, trees) && LowSame(sb, old(disk), disk)
      ensures !ok ==> disk == old(disk) && trees == old(trees)
      ensures ok <==> FreeCount(sb, old(disk)) > 0
      ensures ok ==> FreeCount(sb, disk) == FreeCount(sb, old(disk)) - 1
      ensures ok ==> exists b :: b != 0 && trees == Plant(old(trees), k, n, b)
      ensures Logged(sb, old(disk), old(logged), disk, logged)
      ensures k < |trees| && MAXFILE < |trees[k]|
      ensures logged == if ok then old(logged) + {BitBlock(sb, trees[k][n])} + {trees[k][n]} + {trees[k][MAXFILE]} else old(logged)
    {
      hide Used, Allocated, SameFiles, Partition, Marked, FreeSet;
      ghost var d := disk;
      var ind := inodes[k].addrs[NDIRECT];
      var data := disk[ind];
      var b;
      ok, b := Balloc();
      if ok {
        PlantEntry(sb, d, inodes, trees, owner, k, n, b);
        AllocatedMarked(sb, d, owner, b, (k, n));
        AllocatedShape(sb, d, b);
        IndirectHigh(sb, d, inodes, trees, owner, k);
        AllocatedFree(sb, d, b);
        StoreFree(sb, disk, ind, SetWord(data, n - NDIRECT, b));
        LowEntry(sb, d, ind, n, b);
        LoggedAlloc(sb, d, old(logged), b);
        LoggedStore(sb, d, old(logged), disk, logged, ind, SetWord(data, n - NDIRECT, b));
        disk, logged := disk[ind := SetWord(data, n - NDIRECT, b)], logged + {ind};
        assert disk == EntryAdded(sb, d, ind, n, b);
        trees, owner := Plant(trees, k, n, b), owner[b := (k, n)];
      } else {
        SameAll(sb, d, inodes, trees, owner);
      }
    }

    /**
     bmap: the block at file block bn of inode k, allocated when missing.  No
     file changes its bytes, since a missing block reads as zeros.
     */
    method Bmap(k: nat, bn: nat) returns (r: Bno)
      requires Valid() && k < |inodes|
      modifies this
      ensures Valid() && SameFiles(old(disk), old(trees), disk, trees) && LowSame(sb, old(disk), disk)
      ensures |inodes| == |old(inodes)| && |trees| == |old(trees)|
      ensures forall j :: 0 <= j < |inodes| && j != k ==> inodes[j] == old(inodes)[j] && trees[j] == old(trees)[j]
      ensures inodes[k] == old(inodes)[k].(addrs := inodes[k].addrs)
      ensures r.OutOfRange? <==> bn >= MAXFILE
      ensures r.OutOfRange? ==> disk == old(disk) && inodes == old(inodes) && trees == old(trees) && owner == old(owner)
      ensures |old(trees)[k]| == MAXFILE + 1
      ensures bn < MAXFILE ==> (r.OutOfBlocks? <==> FreeCount(sb, old(disk)) < Needs(old(trees)[k], bn))
      ensures r.At? ==> FreeCount(sb, disk) == FreeCount(sb, old(disk)) - Needs(old(trees)[k], bn)
      ensures r.At? ==> Served(old(trees)[k], trees[k], bn) && r.b == trees[k][bn]
      ensures r.At? && old(trees)[k][bn] != 0 ==>
                disk == old(disk) && inodes == old(inodes) && trees == old(trees) && owner == old(owner)
      ensures Logged(sb, old(disk), old(logged), disk, logged) && (r.OutOfRange? ==> logged == old(logged))
      ensures r.At? ==> logged == old(logged) + NewBlocks(sb, old(trees)[k], trees[k], bn)
    {
      hide Used, SameFiles, Partition, Marked, LowSame, FreeCount, Logged;
      LoggedSelf(sb, disk, logged);
      SameAll(sb, disk, inodes, trees, owner);
      LowSelf(sb, disk);
      if bn < NDIRECT {
        if inodes[k].addrs[bn] == 0 {
          var ok := AddDirect(k, bn);
          if !ok {
            return OutOfBlocks;
          }
        }
        return At(inodes[k].addrs[bn]);
      }
      if bn >= MAXFILE {
        return OutOfRange;
      }
      r := BmapIndirect(k, bn);
    }

    /** The second half of bmap, through the indirect block. */
    method BmapIndirect(k: nat, bn: nat) returns (r: Bno)
      requires Valid() && k < |inodes| && NDIRECT <= bn < MAXFILE
      modifies this
      ensures Valid() && SameFiles(old(disk), old(trees), disk, trees) && LowSame(sb, old(disk), disk)
      ensures |inodes| == |old(inodes)| && |trees| == |old(trees)|
      ensures forall j :: 0 <= j < |inodes| && j != k ==> inodes[j] == old(inodes)[j] && trees[j] == old(trees)[j]
      ensures inodes[k] == old(inodes)[k].(addrs := inodes[k].addrs)
      ensures !r.OutOfRange? && |old(trees)[k]| == MAXFILE + 1
      ensures r.OutOfBlocks? <==> FreeCount(sb, old(disk)) < Needs(old(trees)[k], bn)
      ensures r.At? ==> FreeCount(sb, disk) == FreeCount(sb, old(disk)) - Needs(old(trees)[k], bn)
      ensures r.At? ==> Served(old(trees)[k], trees[k], bn) && r.b == trees[k][bn]
      ensures r.At? && old(trees)[k][bn] != 0 ==>
                disk == old(disk) && inodes == old(inodes) && trees == old(trees) && owner == old(owner)
      ensures Logged(sb, old(disk), old(logged), disk, logged)
      ensures r.At? ==> logged == old(logged) + NewBlocks(sb, old(trees)[k], trees[k], bn)
    {
      hide Used, SameFiles, Partition, Marked, LowSame, FreeCount, Logged, BitBlock;
      ghost var d, l, ts := disk, logged, trees;
      SameAll(sb, d, inodes, ts, owner);
      LowSelf(sb, d);
      LoggedSelf(sb, d, l);
      assert trees[k][bn] == Entry(disk, trees[k][MAXFILE], bn - NDIRECT);
      if inodes[k].addrs[NDIRECT] == 0 {
        var ok := AddDirect(k, MAXFILE);
        if !ok {
          return OutOfBlocks;
        }
      }
      ghost var e, us, m := disk, trees, logged;
      assert trees[k][bn] == Entry(disk, trees[k][MAXFILE], bn - NDIRECT);
      var addr := GetWord(disk[inodes[k].addrs[NDIRECT]], bn - NDIRECT);
      if addr == 0 {
        var ok := AddEntry(k, bn);
        SameTrans(d, ts, e, us, disk, trees);
        LowTrans(sb, d, e, disk);
        LoggedTrans(sb, d, l, e, m, disk, logged);
        if !ok {
          return OutOfBlocks;
        }
      }
      return At(GetWord(disk[inodes[k].addrs[NDIRECT]], bn - NDIRECT));
    }

    /** iupdate: the disk's inode k becomes the one in memory; no other inode and no file changes. */
    method Iupdate(k: nat)
      requires Valid() && k < |inodes|
      modifies this`disk, this`logged
      ensures Valid() && SameFiles(old(disk), old(trees), disk, trees)
      ensures sb.inodestart + k / IPB < |disk| && OnDisk(sb, disk, k) == inodes[k]
      ensures OtherInodes(sb, old(disk), disk, k, |inodes|)
      ensures FreeSet(sb, disk) == FreeSet(sb, old(disk))
      ensures Logged(sb, old(disk), old(logged), disk, logged) && logged == old(logged) + {sb.inodestart + k / IPB}
    {
      InodeFine(sb, disk, inodes, trees, owner, k);
      hide Used, SameFiles, Partition, Marked, Maps, PutInode, GetInode, FreeSet;
      var ib := sb.inodestart + k / IPB;
      ghost var d := disk;
      StoreLow(sb, disk, inodes, trees, owner, ib, PutInode(disk[ib], k % IPB, inodes[k]));
      InodeRoundTrip(disk[ib], k % IPB, inodes[k]);
      LoggedSelf(sb, d, logged);
      LoggedStore(sb, d, logged, d, logged, ib, PutInode(disk[ib], k % IPB, inodes[k]));
      disk, logged := disk[ib := PutInode(disk[ib], k % IPB, inodes[k])], logged + {ib};
      UpdateOthers(sb, d, disk, inodes[k], k, |inodes|);
      StoreFree(sb, d, ib, PutInode(d[ib], k % IPB, inodes[k]));
    }

    /** The body of itrunc's first loop: field i is given back and cleared. */
    method FreeField(k: nat, i: nat, ghost d: Disk, ghost l: set<nat>) returns (ok: bool)
      requires Good(sb, d) && Partition(sb, trees, owner) && Marked(sb, d, owner)
      requires k < |inodes| == |trees| && (i < NDIRECT || i == MAXFILE)
      requires |inodes[k].addrs| == NDIRECT + 1 && |trees[k]| == MAXFILE + 1 && inodes[k].addrs[Field(i)] == trees[k][i]
      requires BitmapOnly(sb, d, disk) && Freed(sb, d, disk, owner, k, i) && Logged(sb, d, l, disk, logged)
      modifies this`disk, this`inodes, this`logged
      ensures ok && BitmapOnly(sb, d, disk) && Freed(sb, d, disk, owner, k, i + 1) && Logged(sb, d, l, disk, logged)
      ensures inodes == old(inodes)[k := SetAddr(old(inodes)[k], i, 0)]
    {
      hide Used, Partition, Marked, Freed, Logged;
      if inodes[k].addrs[Field(i)] == 0 {
        FreeNone(sb, d, disk, trees, owner, k, i);
        assert SetAddr(inodes[k], i, 0).addrs == inodes[k].addrs;
        return true;
      }
      StillMarked(sb, d, disk, trees, owner, k, i);
      FreeOne(sb, d, disk, trees, owner, k, i);
      LoggedFree(sb, d, l, disk, logged, trees[k][i]);
      ok := Bfree(inodes[k].addrs[Field(i)]);
      inodes := inodes[k := SetAddr(inodes[k], i, 0)];
    }

    /** The first loop of itrunc; ok says that no bfree panicked. */
    method FreeDirect(k: nat) returns (ok: bool)
      requires Valid() && k < |inodes|
      modifies this`disk, this`inodes, this`logged
      ensures ok && BitmapOnly(sb, old(disk), disk) && Freed(sb, old(disk), disk, owner, k, NDIRECT)
      ensures Logged(sb, old(disk), old(logged), disk, logged)
      ensures |inodes| == |old(inodes)| && |inodes[k].addrs| == NDIRECT + 1
      ensures inodes == old(inodes)[k := old(inodes)[k].(addrs := inodes[k].addrs)]
      ensures inodes[k].addrs[NDIRECT] == old(inodes)[k].addrs[NDIRECT]
      ensures forall n :: 0 <= n < NDIRECT ==> inodes[k].addrs[n] == 0
    {
      InodeFine(sb, disk, inodes, trees, owner, k);
      assert Maps(disk, inodes[k], trees[k]);
      hide Used, Partition, Marked, Maps, Freed, Logged;
      ghost var d, l := disk, logged;
      FreedStart(sb, d, owner, k);
      LoggedSelf(sb, d, l);
      ok := true;
      var i := 0;
      while i < NDIRECT
        invariant 0 <= i <= NDIRECT && ok
        invariant BitmapOnly(sb, d, disk) && Freed(sb, d, disk, owner, k, i) && Logged(sb, d, l, disk, logged)
        invariant |inodes| == |old(inodes)| && |inodes[k].addrs| == NDIRECT + 1
        invariant inodes == old(inodes)[k := old(inodes)[k].(addrs := inodes[k].addrs)]
        invariant forall n :: 0 <= n <= NDIRECT ==> inodes[k].addrs[n] == if n < i then 0 else old(inodes)[k].addrs[n]
      {
        ok := FreeField(k, i, d, l);
        i := i + 1;
      }
    }

    /** The second loop of itrunc, over the entries of the indirect block. */
    method FreeIndirect(k: nat, ind: nat, ghost d: Disk, ghost l: set<nat>) returns (ok: bool)
      requires Good(sb, d) && Partition(sb, trees, owner) && Marked(sb, d, owner) && k < |trees|
      requires ind == trees[k][MAXFILE] != 0 && ind < |d| && forall n :: NDIRECT <= n < MAXFILE ==> trees[k][n] == Entry(d, ind, n - NDIRECT)
      requires BitmapOnly(sb, d, disk) && Freed(sb, d, disk, owner, k, NDIRECT) && Logged(sb, d, l, disk, logged)
      modifies this`disk, this`logged
      ensures ok && BitmapOnly(sb, d, disk) && Freed(sb, d, disk, owner, k, MAXFILE) && Logged(sb, d, l, disk, logged)
    {
      hide Used, Partition, Marked, Freed, Logged, GetWord, BitBlock;
      IndirectPlace(sb, trees, owner, k);
      var data := disk[ind];
      ok := true;
      var j := 0;
      while j < NINDIRECT
        invariant 0 <= j <= NINDIRECT && ok
        invariant BitmapOnly(sb, d, disk) && Freed(sb, d, disk, owner, k, NDIRECT + j) && Logged(sb, d, l, disk, logged)
      {
        assert trees[k][NDIRECT + j] == GetWord(data, j);
        if GetWord(data, j) != 0 {
          StillMarked(sb, d, disk, trees, owner, k, NDIRECT + j);
          FreeOne(sb, d, disk, trees, owner, k, NDIRECT + j);
          LoggedFree(sb, d, l, disk, logged, trees[k][NDIRECT + j]);
          ok := Bfree(GetWord(data, j));
        } else {
          FreeNone(sb, d, disk, trees, owner, k, NDIRECT + j);
        }
        j := j + 1;
      }
    }

    /** All of itrunc's calls of bfree: none panics, and every block of inode k is given back. */
    method FreeBlocks(k: nat) returns (ok: bool)
      requires Valid() && k < |inodes|
      modifies this`disk, this`inodes, this`logged
      ensures ok && BitmapOnly(sb, old(disk), disk) && Freed(sb, old(disk), disk, owner, k, MAXFILE + 1)
      ensures Logged(sb, old(disk), old(logged), disk, logged)
      ensures |inodes| == |old(inodes)| && |inodes[k].addrs| == NDIRECT + 1
      ensures inodes == old(inodes)[k := old(inodes)[k].(addrs := inodes[k].addrs)]
      ensures forall n :: 0 <= n <= NDIRECT ==> inodes[k].addrs[n] == 0
    {
      assert Maps(disk, inodes[k], trees[k]);
      assert trees[k][MAXFILE] == inodes[k].addrs[NDIRECT];
      hide Used, Partition, Marked, Maps, Freed, Logged;
      ghost var d, l := disk, logged;
      ok := FreeDirect(k);
      var ind := inodes[k].addrs[NDIRECT];
      if ind != 0 {
        ok := FreeIndirect(k, ind, d, l);
        ok := FreeField(k, MAXFILE, d, l);
      } else {
        FreeRest(sb, d, disk, trees, owner, k, NDIRECT);
      }
    }

    /**
     itrunc: never panics, gives back exactly the blocks of inode k, and
     leaves the file empty in memory and on disk.
     */
    method Itrunc(k: nat) returns (ok: bool)
      requires Valid() && k < |inodes|
      modifies this
      ensures ok && Valid() && trees == old(trees)[k := NoBlocks()] && owner == Disowned(old(owner), k)
      ensures |inodes| == |old(inodes)| && inodes == old(inodes)[k := old(inodes)[k].(size := 0, addrs := inodes[k].addrs)]
      ensures forall b :: 0 <= b < sb.size ==>
                (Used(sb, disk, b) <==> Used(sb, old(disk), b) && !(b in old(owner) && old(owner)[b].0 == k))
      ensures forall j :: 0 <= j < |trees| && j != k ==> SameFile(old(disk), old(trees)[j], disk, trees[j])
      ensures Synced(sb, disk, inodes, k) && OtherInodes(sb, old(disk), disk, k, |inodes|) && NoHoles(trees[k], inodes[k].size)
      ensures Logged(sb, old(disk), old(logged), disk, logged)
    {
      InodeFine(sb, disk, inodes, trees, owner, k);
      hide Used, Partition, Marked, Maps, Freed, BitmapOnly, SameFiles, SameFile, OnDisk, Logged;
      ghost var d, l, ips, ts, own := disk, logged, inodes, trees, owner;
      ok := FreeBlocks(k);
      inodes := inodes[k := inodes[k].(size := 0)];
      Truncated(sb, d, disk, ips, trees, owner, k, inodes[k]);
      trees, owner := trees[k := NoBlocks()], Disowned(owner, k);
      ghost var e, m := disk, logged;
      LowBitmap(sb, d, e, k, |inodes|);
      Iupdate(k);
      LoggedTrans(sb, d, l, e, m, disk, logged);
      FreedOnly(sb, d, e, disk, ts, own, k);
      SameAgain(d, ts, e, disk, trees, k);
    }

    /** Inode k has no holes: exactly the blocks below its size are mapped. */
    ghost predicate Whole(k: nat)
      requires k < |trees| && k < |inodes|
      reads this
    {
      NoHoles(trees[k], inodes[k].size)
    }

    /** The bytes of file k. */
    ghost function Content(k: nat): (r: seq<Byte>)
      requires k < |trees| && k < |inodes| && Whole(k)
      reads this
      ensures |r| == inodes[k].size
    {
      Full(disk, trees[k])[..inodes[k].size]
    }

    /**
     readi: the bytes from off on, at most n and not past the end; -1 when off
     lies past the end or off + n wraps.  Nothing is allocated or changed.
     */
    method Readi(k: nat, off: nat, n: nat) returns (r: Transfer, dst: seq<Byte>)
      requires Valid() && k < |inodes| && Whole(k) && off < UINT && n < UINT
      modifies this
      ensures disk == old(disk) && inodes == old(inodes) && trees == old(trees) && owner == old(owner) && logged == old(logged)
      ensures r.ToDevice? <==> inodes[k].typ == T_DEV
      ensures r.Refused? <==> inodes[k].typ != T_DEV && (off > inodes[k].size || off + n >= UINT)
      ensures !r.Panic?
      ensures r.Moved? ==>
                && off <= inodes[k].size
                && r.n == (if off + n > inodes[k].size then inodes[k].size - off else n)
                && dst == Content(k)[off..off + r.n]
    {
      hide Owned, NoHoles, Content;
      dst := [];
      if inodes[k].typ == T_DEV {
        return ToDevice, dst;
      }
      if off > inodes[k].size || (off + n) % UINT < off {
        return Refused, dst;
      }
      var len := if off + n > inodes[k].size then inodes[k].size - off else n;
      dst := ReadAll(k, off, len);
      return Moved(len), dst;
    }

    /** readi's loop. */
    method ReadAll(k: nat, off: nat, len: nat) returns (dst: seq<Byte>)
      requires Valid() && k < |inodes| && Whole(k) && off + len <= inodes[k].size
      modifies this
      ensures disk == old(disk) && inodes == old(inodes) && trees == old(trees) && owner == old(owner) && logged == old(logged)
      ensures dst == Content(k)[off..off + len]
    {
      ghost var s := Content(k);
      hide Full, Owned, NoHoles;
      dst := [];
      var tot := 0;
      while tot < len
        invariant 0 <= tot <= len && dst == s[off..off + tot]
        invariant disk == old(disk) && inodes == old(inodes) && trees == old(trees) && owner == old(owner) && logged == old(logged)
      {
        var x := off + tot;
        var m := if len - tot < BSIZE - x % BSIZE then len - tot else BSIZE - x % BSIZE;
        var part := ReadChunk(k, x, m);
        Slices(s, off, x, x + m);
        dst := dst + part;
        tot := tot + m;
      }
    }

    /** One turn of readi's loop: m bytes from x on, inside one block. */
    method ReadChunk(k: nat, x: nat, m: nat) returns (part: seq<Byte>)
      requires Valid() && k < |inodes| && Whole(k) && x % BSIZE + m <= BSIZE && 0 < m && x + m <= inodes[k].size
      modifies this
      ensures disk == old(disk) && inodes == old(inodes) && trees == old(trees) && owner == old(owner) && logged == old(logged)
      ensures part == Content(k)[x..x + m]
    {
      hide Used, Partition, Marked, Maps, Full, SameFiles, LowSame;
      MappedBelow(trees[k], inodes[k].size, x);
      var a := Bmap(k, x / BSIZE);
      BlockBound(sb, disk, inodes, trees, owner, k, x / BSIZE);
      ContentSlice(disk, trees[k], inodes[k].size, x, m);
      part := disk[a.b][x % BSIZE..x % BSIZE + m];
    }

    /** One turn of writei's loop: the bytes go to offset x, inside one block; !ok is balloc's panic. */
    method WriteChunk(k: nat, x: nat, bytes: seq<Byte>) returns (ok: bool)
      requires Valid() && k < |inodes| && x / BSIZE < MAXFILE && x % BSIZE + |bytes| <= BSIZE
      modifies this
      ensures Valid() && OnlyFile(sb, old(disk), old(inodes), old(trees), disk, inodes, trees, k)
      ensures Logged(sb, old(disk), old(logged), disk, logged)
      ensures |old(trees)[k]| == MAXFILE + 1 && (ok <==> FreeCount(sb, old(disk)) >= Needs(old(trees)[k], x / BSIZE))
      ensures ok ==> Chunked(sb, old(Now(this)), Now(this), k, x, bytes)
    {
      hide Used, Partition, Marked, Maps, Full, LowSame, FreeSet, Logged, NewBlocks;
      var a := Bmap(k, x / BSIZE);
      assert SameFile(old(disk), old(trees)[k], disk, trees[k]);
      if a.OutOfBlocks? {
        return false;
      }
      ghost var d := disk;
      StoreData(sb, disk, inodes, trees, owner, k, x / BSIZE, x % BSIZE, bytes);
      BlockBound(sb, disk, inodes, trees, owner, k, x / BSIZE);
      StoreFree(sb, disk, a.b, Patch(disk[a.b], x % BSIZE, bytes));
      LoggedStore(sb, old(disk), old(logged), disk, logged, a.b, Patch(disk[a.b], x % BSIZE, bytes));
      disk, logged := disk[a.b := Patch(disk[a.b], x % BSIZE, bytes)], logged + {a.b};
      LowStore(sb, old(disk), d, disk, a.b);
      SameOthers(old(disk), old(trees), d, disk, trees, k);
      ok := true;
    }

    /** writei's loop: src goes to offset off; !ok is balloc's panic. */
    method WriteAll(k: nat, src: seq<Byte>, off: nat) returns (ok: bool)
      requires Valid() && k < |inodes| && Whole(k) && off <= inodes[k].size && off + |src| <= MAXBYTES
      modifies this
      ensures Valid() && OnlyFile(sb, old(disk), old(inodes), old(trees), disk, inodes, trees, k)
      ensures Logged(sb, old(disk), old(logged), disk, logged)
      ensures ok <==> FreeCount(sb, old(disk)) >= Growth(old(inodes)[k].size, off + |src|)
      ensures ok ==> Spread(sb, old(Now(this)), Now(this), k, off, src)
    {
      hide Used, Owned, OnlyFile, FreeCount, Needs, Growth, Logged, Spread, Chunked, NoHoles, AtEdge;
      ghost var v := Now(this);
      SpreadStart(sb, v, k, off);
      EdgeStart(off, |src|);
      LoggedSelf(sb, disk, logged);
      OnlySelf(sb, v.d, v.ips, v.ts, owner, k);
      assert [] == src[..0];
      var tot := 0;
      while tot < |src|
        invariant 0 <= tot <= |src| && Valid() && k < |inodes| && Spread(sb, v, Now(this), k, off, src[..tot])
        invariant OnlyFile(sb, v.d, v.ips, v.ts, disk, inodes, trees, k) && Logged(sb, v.d, v.log, disk, logged)
        invariant AtEdge(off, tot, |src|)
      {
        var x := off + tot;
        var m := if |src| - tot < BSIZE - x % BSIZE then |src| - tot else BSIZE - x % BSIZE;
        ghost var w := Now(this);
        TurnSize(off, tot, |src|, m);
        SpreadNeeds(sb, v, w, k, off, src, tot, m);
        ok := WriteChunk(k, x, src[tot..tot + m]);
        OnlyTrans(sb, v.d, v.ips, v.ts, w.d, w.ips, w.ts, disk, inodes, trees, k);
        LoggedTrans(sb, v.d, v.log, w.d, w.log, disk, logged);
        if !ok {
          return;
        }
        SpreadMore(sb, v, w, Now(this), k, off, src, tot, m);
        tot := tot + m;
      }
      assert src[..tot] == src;
      SpreadEnd(sb, v, Now(this), k, off, src);
      ok := true;
    }

    /**
     writei: content[off..off + n] becomes src and the file grows to
     max(size, off + n); -1 when off lies past the end, off + n wraps or the
     file would exceed MAXFILE blocks.  No other file changes, no hole
     appears, and the inode on disk keeps up with the one in memory.
     */
    method Writei(k: nat, src: seq<Byte>, off: nat) returns (r: Transfer)
      requires Valid() && k < |inodes| && Whole(k) && off < UINT && |src| < UINT
      modifies this
      ensures Valid()
      ensures r.ToDevice? <==> old(inodes)[k].typ == T_DEV
      ensures r.Refused? <==> (old(inodes)[k].typ != T_DEV
                               && (off > old(inodes)[k].size || off + |src| >= UINT || off + |src| > MAXBYTES))
      ensures r.ToDevice? || r.Refused? ==> disk == old(disk) && inodes == old(inodes) && trees == old(trees)
      ensures r.Panic? <==> (old(inodes)[k].typ != T_DEV && off <= old(inodes)[k].size && off + |src| <= MAXBYTES
                             && FreeCount(sb, old(disk)) < Growth(old(inodes)[k].size, off + |src|))
      ensures r.Moved? ==> FreeCount(sb, disk) == FreeCount(sb, old(disk)) - Growth(old(inodes)[k].size, off + |src|)
      ensures r.Moved? ==> r.n == |src| && Wrote(sb, old(disk), old(inodes), old(trees), disk, inodes, trees, k, off, src)
      ensures Logged(sb, old(disk), old(logged), disk, logged)
      ensures r.Moved? && sb.size <= BPB ==> logged == old(logged) + Footprint(sb, trees[k], k, old(inodes)[k].size, off, |src|)
    {
      hide Used, Owned, Full, OnlyFile, Wrote, FreeSet, Growth, Logged, Touched, Patch, NoHoles;
      LoggedSelf(sb, disk, logged);
      if inodes[k].typ == T_DEV {
        return ToDevice;
      }
      if off > inodes[k].size || (off + |src|) % UINT < off {
        return Refused;
      }
      if off + |src| > MAXBYTES {
        return Refused;
      }
      InodeFine(sb, disk, inodes, trees, owner, k);
      ghost var d, l, ips, ts := disk, logged, inodes, trees;
      var ok := WriteAll(k, src, off);
      if !ok {
        return Panic;
      }
      SizesKept(sb, d, ips, ts, disk, inodes, trees, k);
      if |src| > 0 && off + |src| > inodes[k].size {
        ghost var e, m, jps := disk, logged, inodes;
        SetSize(k, off + |src|);
        LoggedTrans(sb, d, l, e, m, disk, logged);
        WroteGrown(sb, d, ips, ts, e, jps, disk, trees, owner, k, off, src);
      } else {
        WroteWithin(sb, d, ips, ts, disk, inodes, trees, owner, k, off, src);
      }
      r := Moved(|src|);
    }

    /** The tail of writei: the new size, in memory and on disk. */
    method SetSize(k: nat, size: nat)
      requires Valid() && k < |inodes| && size < UINT
      modifies this`disk, this`inodes, this`logged
      ensures Valid() && inodes == old(inodes)[k := old(inodes)[k].(size := size)]
      ensures SameFiles(old(disk), trees, disk, trees) && OtherInodes(sb, old(disk), disk, k, |inodes|)
      ensures Synced(sb, disk, inodes, k) && FreeCount(sb, disk) == FreeCount(sb, old(disk))
      ensures Logged(sb, old(disk), old(logged), disk, logged) && logged == old(logged) + {sb.inodestart + k / IPB}
    {
      hide Used, Owned, SameFiles, OnDisk, Logged;
      Resized(sb, disk, inodes, trees, owner, k, size);
      inodes := inodes[k := inodes[k].(size := size)];
      Iupdate(k);
    }
  }

  // ---------- What a transaction logs ----------

  lemma LoggedSelf(sb: Super, d: Disk, l: set<nat>)
    ensures Logged(sb, d, l, d, l)
  {
  }

  lemma LoggedTrans(sb: Super, d: Disk, l: set<nat>, e: Disk, m: set<nat>, f: Disk, n: set<nat>)
    requires Logged(sb, d, l, e, m) && Logged(sb, e, m, f, n)
    ensures Logged(sb, d, l, f, n)
  {
    forall c | 0 <= c < |d| && f[c] != d[c]
      ensures c in n
    {
      assert f[c] != e[c] || e[c] != d[c];
    }
  }

  lemma LoggedStore(sb: Super, d: Disk, l: set<nat>, e: Disk, m: set<nat>, b: nat, data: Block)
    requires Logged(sb, d, l, e, m) && sb.inodestart <= b < |e|
    ensures Logged(sb, d, l, e[b := data], m + {b})
  {
  }

  lemma LoggedAlloc(sb: Super, d: Disk, l: set<nat>, b: nat)
    requires Good(sb, d) && sb.datastart <= b < sb.size
    ensures BitBlock(sb, b) < |d| && Logged(sb, d, l, Allocated(sb, d, b), l + {BitBlock(sb, b)} + {b})
  {
    BitPlace(sb, d, b);
    LoggedSelf(sb, d, l);
    var e := Mark(sb, d, b, true);
    LoggedStore(sb, d, l, d, l, BitBlock(sb, b), e[BitBlock(sb, b)]);
    LoggedStore(sb, d, l, e, l + {BitBlock(sb, b)}, b, ZeroBlock());
  }

  lemma LoggedFree(sb: Super, d: Disk, l: set<nat>, e: Disk, m: set<nat>, b: nat)
    requires Logged(sb, d, l, e, m) && Good(sb, d) && b < sb.size
    ensures BitBlock(sb, b) < |e| && Logged(sb, d, l, Mark(sb, e, b, false), m + {BitBlock(sb, b)})
  {
    BitPlace(sb, d, b);
    LoggedStore(sb, d, l, e, m, BitBlock(sb, b), Mark(sb, e, b, false)[BitBlock(sb, b)]);
  }

  /** The blocks of the file blocks from lo to hi. */
  ghost function DataBlocks(u: Tree, lo: nat, hi: nat): set<nat>
    requires |u| == MAXFILE + 1
  {
    set i | lo <= i < hi && i < MAXFILE :: u[i]
  }

  /** The end of the file blocks that bytes off to `end` reach. */
  function LastBlock(off: nat, end: nat): nat {
    if end <= off then off / BSIZE else (end - 1) / BSIZE + 1
  }

  /**
   The blocks that writei's loop logs on a disk with one bitmap block: the file
   blocks it reaches, and when the last of them is new the bitmap block and,
   past the direct blocks, the indirect block.
   */
  ghost function Touched(sb: Super, u: Tree, size: nat, off: nat, end: nat): set<nat>
    requires |u| == MAXFILE + 1 && end <= MAXBYTES
  {
    DataBlocks(u, off / BSIZE, LastBlock(off, end))
    + (if off < end && (end - 1) / BSIZE * BSIZE >= size then {sb.bmapstart} else {})
    + (if off < end && (end - 1) / BSIZE * BSIZE >= size && (end - 1) / BSIZE >= NDIRECT then {u[MAXFILE]} else {})
  }

  /** All of writei: the inode's block too when the file grows. */
  ghost function Footprint(sb: Super, u: Tree, k: nat, size: nat, off: nat, n: nat): set<nat>
    requires |u| == MAXFILE + 1 && off + n <= MAXBYTES
  {
    Touched(sb, u, size, off, off + n) + if n > 0 && off + n > size then {sb.inodestart + k / IPB} else {}
  }

  lemma TouchedNone(sb: Super, u: Tree, size: nat, off: nat)
    requires |u| == MAXFILE + 1 && off <= MAXBYTES
    ensures Touched(sb, u, size, off, off) == {}
  {
  }

  lemma BlocksBelow(sb: Super, d: Disk, inodes: seq<Inode>, trees: seq<Tree>, owner: map<nat, (nat, nat)>, k: nat)
    requires Owned(sb, d, inodes, trees, owner) && k < |inodes|
    ensures forall i :: 0 <= i <= MAXFILE ==> trees[k][i] < sb.size
  {
    forall i | 0 <= i <= MAXFILE
      ensures trees[k][i] < sb.size
    {
      assert trees[k][i] != 0 ==> owner[trees[k][i]] == (k, i);
    }
  }

  /** The block numbers in one turn of writei's loop, in file block bn. */
  lemma TurnPlaces(off: nat, x: nat, m: nat, bn: nat)
    requires off <= x && (x == off || x % BSIZE == 0) && bn == x / BSIZE && 0 < m && x % BSIZE + m <= BSIZE
    ensures (x + m - 1) / BSIZE == bn && LastBlock(off, x) == bn && LastBlock(off, x + m) == bn + 1
    ensures off < x ==> (x - 1) / BSIZE == bn - 1 && bn * BSIZE == x
  {
  }

  /** In such a turn the file block is new exactly when it lies past the old end. */
  lemma TurnNew(t: Tree, size: nat, off: nat, x: nat, bn: nat)
    requires NoHoles(t, Max(size, x)) && off <= size && off <= x && (x == off || x % BSIZE == 0) && bn == x / BSIZE < MAXFILE
    ensures t[bn] == 0 <==> bn * BSIZE >= size
    ensures off < x && (bn - 1) * BSIZE >= size ==> t[bn] == 0
    ensures off < x && bn - 1 >= NDIRECT ==> t[MAXFILE] != 0
  {
  }

  lemma TouchedData(t: Tree, u: Tree, lo: nat, bn: nat)
    requires Served(t, u, bn) && lo <= bn
    ensures DataBlocks(t, lo, bn) + {u[bn]} == DataBlocks(u, lo, bn + 1)
  {
    var a, b := DataBlocks(t, lo, bn), DataBlocks(u, lo, bn + 1);
    forall c | c in a
      ensures c in b
    {
      var i :| lo <= i < bn && c == t[i];
      assert u[i] == t[i];
    }
    forall c | c in b
      ensures c in a + {u[bn]}
    {
      var i :| lo <= i < bn + 1 && c == u[i];
      assert i != bn ==> u[i] == t[i];
    }
  }

  lemma OneBitmapBlock(sb: Super, b: nat)
    requires b < sb.size <= BPB
    ensures BitBlock(sb, b) == sb.bmapstart
  {
  }

  /** One more turn of the loop logs one more file block, and its bitmap and indirect blocks when it is new. */
  lemma TouchedMore(sb: Super, t: Tree, u: Tree, size: nat, off: nat, x: nat, m: nat)
    requires NoHoles(t, Max(size, x)) && Served(t, u, x / BSIZE) && off <= size && off <= x && (x == off || x % BSIZE == 0)
    requires 0 < m && x % BSIZE + m <= BSIZE && x + m <= MAXBYTES
    requires sb.size <= BPB && forall i :: 0 <= i <= MAXFILE ==> u[i] < sb.size
    ensures Touched(sb, t, size, off, x) + NewBlocks(sb, t, u, x / BSIZE) + {u[x / BSIZE]} == Touched(sb, u, size, off, x + m)
  {
    var bn := x / BSIZE;
    TurnPlaces(off, x, m, bn);
    TurnNew(t, size, off, x, bn);
    TouchedData(t, u, off / BSIZE, bn);
    OneBitmapBlock(sb, u[bn]);
    OneBitmapBlock(sb, u[MAXFILE]);
    hide LastBlock, NoHoles, BitBlock, DataBlocks;
  }

  // ---------- writei's loop ----------

  /** One turn, from image v to image w: the bytes are at offset x and the blocks it changed are logged. */
  ghost predicate Chunked(sb: Super, v: Image, w: Image, k: nat, x: nat, bytes: seq<Byte>) {
    && OnlyFile(sb, v.d, v.ips, v.ts, w.d, w.ips, w.ts, k)
    && |v.ts[k]| == |w.ts[k]| == MAXFILE + 1 && x + |bytes| <= MAXBYTES && Served(v.ts[k], w.ts[k], x / BSIZE)
    && FreeCount(sb, w.d) == FreeCount(sb, v.d) - Needs(v.ts[k], x / BSIZE)
    && Full(w.d, w.ts[k]) == Patch(Full(v.d, v.ts[k]), x, bytes)
    && (v.ts[k][x / BSIZE] != 0 ==> w.ips == v.ips && w.ts == v.ts)
    && w.log == v.log + NewBlocks(sb, v.ts[k], w.ts[k], x / BSIZE) + {w.ts[k][x / BSIZE]}
  }

  /** All turns so far, from image v to image w: src is at offset off, without holes. */
  ghost predicate Spread(sb: Super, v: Image, w: Image, k: nat, off: nat, src: seq<Byte>) {
    && OnlyFile(sb, v.d, v.ips, v.ts, w.d, w.ips, w.ts, k)
    && |v.ts[k]| == |w.ts[k]| == MAXFILE + 1 && off <= v.ips[k].size && off + |src| <= MAXBYTES
    && NoHoles(w.ts[k], Max(v.ips[k].size, off + |src|))
    && Full(w.d, w.ts[k]) == Patch(Full(v.d, v.ts[k]), off, src)
    && (off + |src| <= v.ips[k].size ==> w.ips == v.ips && w.ts == v.ts)
    && FreeCount(sb, w.d) == FreeCount(sb, v.d) - Growth(v.ips[k].size, off + |src|)
    && (sb.size <= BPB ==> w.log == v.log + Touched(sb, w.ts[k], v.ips[k].size, off, off + |src|))
  }

  lemma SpreadStart(sb: Super, v: Image, k: nat, off: nat)
    requires Owned(sb, v.d, v.ips, v.ts, v.owner) && k < |v.ips| && NoHoles(v.ts[k], v.ips[k].size) && off <= v.ips[k].size
    ensures Spread(sb, v, v, k, off, [])
  {
    hide Full, Used, Partition, Marked, Maps, Touched, FreeCount;
    OnlySelf(sb, v.d, v.ips, v.ts, v.owner, k);
    PatchNone(Full(v.d, v.ts[k]), off);
    GrowthStart(v.ips[k].size, off);
    TouchedNone(sb, v.ts[k], v.ips[k].size, off);
  }

  /** A turn that finds too few free blocks: the whole write needs more than there were. */
  lemma SpreadNeeds(sb: Super, v: Image, w: Image, k: nat, off: nat, src: seq<Byte>, tot: nat, m: nat)
    requires tot <= |src| && Spread(sb, v, w, k, off, src[..tot]) && 0 < m <= |src| - tot && (off + tot) % BSIZE + m <= BSIZE
    requires off + |src| <= MAXBYTES
    ensures k < |w.ts| && |w.ts[k]| == MAXFILE + 1 && (off + tot) / BSIZE < MAXFILE && k < |v.ips|
    ensures FreeCount(sb, w.d) < Needs(w.ts[k], (off + tot) / BSIZE) ==> FreeCount(sb, v.d) < Growth(v.ips[k].size, off + |src|)
  {
    hide Full, FreeCount, Touched, Growth;
    NeedsStep(w.ts[k], v.ips[k].size, off + tot, m, off + |src|);
  }

  lemma SpreadEnd(sb: Super, v: Image, w: Image, k: nat, off: nat, src: seq<Byte>)
    requires Spread(sb, v, w, k, off, src)
    ensures k < |v.ips| && FreeCount(sb, v.d) >= Growth(v.ips[k].size, off + |src|)
  {
    hide Full, Touched, Growth;
  }

  /** Every turn but the last ends at the end of a block. */
  ghost predicate AtEdge(off: nat, tot: nat, n: nat) {
    0 < tot < n ==> (off + tot) % BSIZE == 0
  }

  lemma EdgeStart(off: nat, n: nat)
    ensures AtEdge(off, 0, n)
  {
  }

  lemma TurnSize(off: nat, tot: nat, n: nat, m: nat)
    requires tot < n && m == (if n - tot < BSIZE - (off + tot) % BSIZE then n - tot else BSIZE - (off + tot) % BSIZE)
    ensures 0 < m <= n - tot && (off + tot) % BSIZE + m <= BSIZE && AtEdge(off, tot + m, n)
  {
  }

  lemma SpreadMore(sb: Super, u: Image, v: Image, w: Image, k: nat, off: nat, src: seq<Byte>, tot: nat, m: nat)
    requires tot + m <= |src| && off + |src| <= MAXBYTES && 0 < m && (off + tot) % BSIZE + m <= BSIZE
    requires AtEdge(off, tot, |src|)
    requires Spread(sb, u, v, k, off, src[..tot]) && Chunked(sb, v, w, k, off + tot, src[tot..tot + m])
    requires Owned(sb, w.d, w.ips, w.ts, w.owner)
    ensures Spread(sb, u, w, k, off, src[..tot + m])
  {
    hide Full, FreeCount, Touched, Growth, Used, Partition, Marked, Maps, SameFile, LowSame, NoHoles, Needs, Served, NewBlocks, Patch;
    var size, x := u.ips[k].size, off + tot;
    OnlyTrans(sb, u.d, u.ips, u.ts, v.d, v.ips, v.ts, w.d, w.ips, w.ts, k);
    NeedsStep(v.ts[k], size, x, m, off + |src|);
    ServedWhole(v.ts[k], w.ts[k], size, x, m);
    PatchMore(Full(u.d, u.ts[k]), off, src, tot, m);
    BlocksBelow(sb, w.d, w.ips, w.ts, w.owner, k);
    if sb.size <= BPB {
      TouchedMore(sb, v.ts[k], w.ts[k], size, off, x, m);
    }
  }

  /** A read of the spliced range gives the bytes, and the rest of the file is as it was. */
  lemma SpliceParts(s: seq<Byte>, off: nat, bytes: seq<Byte>)
    requires off <= |s|
    ensures Splice(s, off, bytes)[off..off + |bytes|] == bytes && Splice(s, off, bytes)[..off] == s[..off]
    ensures off + |bytes| <= |s| ==> Splice(s, off, bytes)[off + |bytes|..] == s[off + |bytes|..]
  {
  }

  /** Three readi calls: a range, the bytes before it and the bytes after it. */
  method ReadParts(fs: FileSystem, k: nat, off: nat, len: nat) returns (dst: seq<Byte>, before: seq<Byte>, after: seq<Byte>)
    requires fs.Valid() && k < |fs.inodes| && fs.Whole(k) && fs.inodes[k].typ != T_DEV && off + len <= fs.inodes[k].size
    modifies fs
    ensures fs.disk == old(fs.disk) && fs.inodes == old(fs.inodes) && fs.trees == old(fs.trees) && fs.owner == old(fs.owner) && fs.logged == old(fs.logged)
    ensures dst == fs.Content(k)[off..off + len] && before == fs.Content(k)[..off] && after == fs.Content(k)[off + len..]
  {
    assert fs.inodes[k].size <= MAXBYTES;
    hide Owned, Full, NoHoles;
    ghost var c := fs.Content(k);
    var a, b, d;
    a, dst := fs.Readi(k, off, len);
    b, before := fs.Readi(k, 0, off);
    d, after := fs.Readi(k, off + len, fs.inodes[k].size);
  }

  /** writei and then readi: the written bytes come back, and the rest of the file is as it was. */
  method WriteThenRead(fs: FileSystem, k: nat, src: seq<Byte>, off: nat)
      returns (r: Transfer, dst: seq<Byte>, before: seq<Byte>, after: seq<Byte>)
    requires fs.Valid() && k < |fs.inodes| && fs.Whole(k) && off < UINT && |src| < UINT
    modifies fs
    ensures r.Moved? <==> (old(fs.inodes)[k].typ != T_DEV && off <= old(fs.inodes)[k].size && off + |src| <= MAXBYTES
                           && FreeCount(fs.sb, old(fs.disk)) >= Growth(old(fs.inodes)[k].size, off + |src|))
    ensures r.Moved? ==> dst == src && before == old(fs.Content(k))[..off]
    ensures r.Moved? && off + |src| <= old(fs.inodes)[k].size ==> after == old(fs.Content(k))[off + |src|..]
  {
    ghost var c := fs.Content(k);
    hide Owned, Full, NoHoles, FreeCount, Growth, Splice, Wrote;
    dst, before, after := [], [], [];
    ghost var d, ips, ts := fs.disk, fs.inodes, fs.trees;
    r := fs.Writei(k, src, off);
    if r.Moved? {
      WroteContent(fs.sb, d, ips, ts, fs.disk, fs.inodes, fs.trees, k, off, src);
      SpliceParts(c, off, src);
      dst, before, after := ReadParts(fs, k, off, |src|);
    }
  }

  lemma WroteContent(sb: Super, d: Disk, ips: seq<Inode>, ts: seq<Tree>, e: Disk, jps: seq<Inode>, us: seq<Tree>, k: nat, off: nat, src: seq<Byte>)
    requires Wrote(sb, d, ips, ts, e, jps, us, k, off, src)
    ensures k < |jps| && k < |us| && NoHoles(us[k], jps[k].size) && NoHoles(ts[k], ips[k].size) && jps[k].size <= MAXBYTES
    ensures jps[k].size == Max(ips[k].size, off + |src|) && jps[k].typ == ips[k].typ
    ensures Full(e, us[k])[..jps[k].size] == Splice(Full(d, ts[k])[..ips[k].size], off, src)
  {
  }

  /** A successful writei of src at off: the one file spliced and still whole, every other file and inode as it was. */
  ghost predicate Wrote(sb: Super, d: Disk, ips: seq<Inode>, ts: seq<Tree>, e: Disk, jps: seq<Inode>, us: seq<Tree>, k: nat, off: nat, src: seq<Byte>) {
    && |ips| == |jps| == |ts| == |us| && k < |ips| && off <= ips[k].size
    && jps[k] == ips[k].(size := Max(ips[k].size, off + |src|), addrs := jps[k].addrs)
    && NoHoles(ts[k], ips[k].size) && NoHoles(us[k], jps[k].size)
    && Full(e, us[k])[..jps[k].size] == Splice(Full(d, ts[k])[..ips[k].size], off, src)
    && (forall j :: 0 <= j < |ips| && j != k ==> jps[j] == ips[j] && us[j] == ts[j] && SameFile(d, ts[j], e, us[j]))
    && OtherInodes(sb, d, e, k, |ips|)
    && (Synced(sb, d, ips, k) ==> Synced(sb, e, jps, k))
  }

  lemma SizesKept(sb: Super, d: Disk, ips: seq<Inode>, ts: seq<Tree>, e: Disk, jps: seq<Inode>, us: seq<Tree>, k: nat)
    requires OnlyFile(sb, d, ips, ts, e, jps, us, k)
    ensures |ips| == |jps| == |ts| == |us| && jps[k].size == ips[k].size
  {
  }

  lemma WroteWithin(sb: Super, d: Disk, ips: seq<Inode>, ts: seq<Tree>, e: Disk, jps: seq<Inode>, us: seq<Tree>, owner: map<nat, (nat, nat)>, k: nat, off: nat, src: seq<Byte>)
    requires OnlyFile(sb, d, ips, ts, e, jps, us, k) && Owned(sb, e, jps, us, owner) && NoHoles(ts[k], ips[k].size)
    requires off <= ips[k].size && off + |src| <= MAXBYTES && Max(ips[k].size, off + |src|) == ips[k].size
    requires jps == ips && us == ts && Full(e, us[k]) == Patch(Full(d, ts[k]), off, src)
    ensures Wrote(sb, d, ips, ts, e, jps, us, k, off, src)
  {
    LowInodes(sb, d, e, jps, us, owner, k, |jps|);
    hide Full, Used, OnDisk, Owned, Splice;
    SpliceWhole(Full(d, ts[k]), ips[k].size, off, src);
  }

  lemma WroteGrown(sb: Super, d: Disk, ips: seq<Inode>, ts: seq<Tree>, e: Disk, jps: seq<Inode>, f: Disk, us: seq<Tree>, owner: map<nat, (nat, nat)>, k: nat, off: nat, src: seq<Byte>)
    requires OnlyFile(sb, d, ips, ts, e, jps, us, k) && Owned(sb, e, jps, us, owner) && NoHoles(ts[k], ips[k].size)
    requires off <= ips[k].size < off + |src| <= MAXBYTES && NoHoles(us[k], off + |src|)
    requires Full(e, us[k]) == Patch(Full(d, ts[k]), off, src)
    requires SameFiles(e, us, f, us) && OtherInodes(sb, e, f, k, |ips|)
    requires Synced(sb, f, jps[k := jps[k].(size := off + |src|)], k)
    ensures Wrote(sb, d, ips, ts, f, jps[k := jps[k].(size := off + |src|)], us, k, off, src)
  {
    LowInodes(sb, d, e, jps, us, owner, k, |jps|);
    hide Full, Used, OnDisk, Owned, Splice;
    SpliceWhole(Full(d, ts[k]), ips[k].size, off, src);
    SameAgain(d, ts, e, f, us, k);
    assert SameFile(e, us[k], f, us[k]);
  }

  /** Exactly the blocks below size are mapped, and the indirect block when one of them needs it. */
  ghost predicate NoHoles(t: Tree, size: nat) {
    && |t| == MAXFILE + 1 && size <= MAXBYTES
    && (forall n :: 0 <= n < MAXFILE ==> (t[n] != 0 <==> n * BSIZE < size))
    && (t[MAXFILE] != 0 <==> NDIRECT * BSIZE < size)
  }

  function Max(a: nat, b: nat): nat {
    if a < b then b else a
  }

  /** Apart from file k, every file, every inode and every block below the bitmap is as it was; k keeps its metadata. */
  ghost predicate OnlyFile(sb: Super, d: Disk, ips: seq<Inode>, ts: seq<Tree>, e: Disk, jps: seq<Inode>, us: seq<Tree>, k: nat) {
    && |ips| == |jps| == |ts| == |us| && k < |ips| && LowSame(sb, d, e)
    && jps[k] == ips[k].(addrs := jps[k].addrs)
    && forall j :: 0 <= j < |ips| && j != k ==> jps[j] == ips[j] && us[j] == ts[j] && SameFile(d, ts[j], e, us[j])
  }

  /** The inode on disk is the one in memory. */
  ghost predicate Synced(sb: Super, d: Disk, inodes: seq<Inode>, k: nat) {
    k < |inodes| && sb.inodestart + k / IPB < |d| && OnDisk(sb, d, k) == inodes[k]
  }

  /** s with bytes in place of s[off..off + |bytes|], longer when they reach past the end. */
  function Splice(s: seq<Byte>, off: nat, bytes: seq<Byte>): (r: seq<Byte>)
    requires off <= |s|
    ensures |r| == Max(|s|, off + |bytes|)
  {
    s[..off] + bytes + (if off + |bytes| < |s| then s[off + |bytes|..] else [])
  }

  lemma SpliceWhole(f: seq<Byte>, size: nat, off: nat, src: seq<Byte>)
    requires off <= size <= |f| && off + |src| <= |f|
    ensures Patch(f, off, src)[..Max(size, off + |src|)] == Splice(f[..size], off, src)
  {
  }

  lemma LowInodes(sb: Super, d: Disk, e: Disk, inodes: seq<Inode>, trees: seq<Tree>, owner: map<nat, (nat, nat)>, k: nat, n: nat)
    requires Owned(sb, e, inodes, trees, owner) && LowSame(sb, d, e) && k < |inodes| && n == |inodes|
    ensures OtherInodes(sb, d, e, k, n) && sb.inodestart + k / IPB < |d| && OnDisk(sb, e, k) == OnDisk(sb, d, k)
  {
  }

  /** A new size keeps the block map. */
  lemma Resized(sb: Super, d: Disk, inodes: seq<Inode>, trees: seq<Tree>, owner: map<nat, (nat, nat)>, k: nat, size: nat)
    requires Owned(sb, d, inodes, trees, owner) && k < |inodes| && size < UINT
    ensures Owned(sb, d, inodes[k := inodes[k].(size := size)], trees, owner)
  {
    hide Used;
    var jps := inodes[k := inodes[k].(size := size)];
    forall j | 0 <= j < |jps|
      ensures Maps(d, jps[j], trees[j])
    {
      assert Maps(d, inodes[j], trees[j]);
    }
  }

  lemma OnlySelf(sb: Super, d: Disk, ips: seq<Inode>, ts: seq<Tree>, owner: map<nat, (nat, nat)>, k: nat)
    requires Owned(sb, d, ips, ts, owner) && k < |ips|
    ensures OnlyFile(sb, d, ips, ts, d, ips, ts, k)
  {
  }

  lemma OnlyTrans(sb: Super, d: Disk, ips: seq<Inode>, ts: seq<Tree>, e: Disk, jps: seq<Inode>, us: seq<Tree>, f: Disk, kps: seq<Inode>, vs: seq<Tree>, k: nat)
    requires OnlyFile(sb, d, ips, ts, e, jps, us, k) && OnlyFile(sb, e, jps, us, f, kps, vs, k)
    ensures OnlyFile(sb, d, ips, ts, f, kps, vs, k) && |kps| == |vs| == |jps| && kps[k].size == jps[k].size
  {
    hide Full;
    LowTrans(sb, d, e, f);
    forall j | 0 <= j < |ips| && j != k
      ensures kps[j] == ips[j] && vs[j] == ts[j] && SameFile(d, ts[j], f, vs[j])
    {
      assert SameFile(e, us[j], f, vs[j]);
    }
  }

  lemma LowStore(sb: Super, d: Disk, e: Disk, f: Disk, a: nat)
    requires Good(sb, e) && LowSame(sb, d, e) && sb.datastart <= a < |e| == |f| && forall c :: 0 <= c < |e| && c != a ==> f[c] == e[c]
    ensures LowSame(sb, d, f)
  {
  }

  lemma SameOthers(d: Disk, ts: seq<Tree>, e: Disk, f: Disk, us: seq<Tree>, k: nat)
    requires SameFiles(d, ts, e, us) && forall j :: 0 <= j < |us| && j != k ==> SameFile(e, us[j], f, us[j])
    ensures forall j :: 0 <= j < |us| && j != k ==> SameFile(d, ts[j], f, us[j])
  {
    hide Full;
    forall j | 0 <= j < |us| && j != k
      ensures SameFile(d, ts[j], f, us[j])
    {
      assert SameFile(d, ts[j], e, us[j]);
    }
  }

  lemma PatchNone(s: seq<Byte>, off: nat)
    requires off <= |s|
    ensures Patch(s, off, []) == s
  {
  }

  /** Patching piece after piece patches the whole. */
  lemma PatchMore(s: seq<Byte>, off: nat, src: seq<Byte>, tot: nat, m: nat)
    requires tot + m <= |src| && off + |src| <= |s|
    ensures Patch(Patch(s, off, src[..tot]), off + tot, src[tot..tot + m]) == Patch(s, off, src[..tot + m])
  {
  }

  /** Writing at or before the end of a whole file leaves it whole up to the new end. */
  lemma ServedWhole(t: Tree, u: Tree, size: nat, x: nat, m: nat)
    requires NoHoles(t, Max(size, x)) && Served(t, u, x / BSIZE) && 0 < m && x % BSIZE + m <= BSIZE && x + m <= MAXBYTES
    ensures NoHoles(u, Max(size, x + m))
    ensures x + m <= size ==> t[x / BSIZE] != 0
  {
  }

  lemma Slices(s: seq<Byte>, a: nat, b: nat, c: nat)
    requires a <= b <= c <= |s|
    ensures s[a..b] + s[b..c] == s[a..c]
  {
  }

  /** The blocks a file of this size gains when it is written up to `end`. */
  function Growth(size: nat, end: nat): nat {
    if end <= size then 0 else BlocksOf(end) - BlocksOf(size)
  }

  lemma GrowthStart(size: nat, off: nat)
    ensures off <= size ==> Growth(size, off) == 0
  {
  }

  /** Each turn of writei's loop needs exactly the blocks by which the file grows. */
  lemma NeedsStep(t: Tree, size: nat, x: nat, m: nat, end: nat)
    requires NoHoles(t, Max(size, x)) && 0 < m && x % BSIZE + m <= BSIZE && x + m <= end <= MAXBYTES
    ensures Growth(size, x) + Needs(t, x / BSIZE) == Growth(size, x + m) <= Growth(size, end)
  {
  }

  lemma MappedBelow(t: Tree, size: nat, x: nat)
    requires NoHoles(t, size) && x < size
    ensures x / BSIZE < MAXFILE && t[x / BSIZE] != 0
  {
  }

  lemma BlockBound(sb: Super, d: Disk, inodes: seq<Inode>, trees: seq<Tree>, owner: map<nat, (nat, nat)>, k: nat, n: nat)
    requires Owned(sb, d, inodes, trees, owner) && k < |inodes| && n < MAXFILE && trees[k][n] != 0
    ensures sb.datastart <= trees[k][n] < |d|
  {
    assert owner[trees[k][n]] == (k, n);
  }

  lemma ContentSlice(d: Disk, t: Tree, size: nat, x: nat, m: nat)
    requires NoHoles(t, size) && x + m <= size && x % BSIZE + m <= BSIZE && x / BSIZE < MAXFILE && 0 < t[x / BSIZE] < |d|
    ensures Full(d, t)[..size][x..x + m] == d[t[x / BSIZE]][x % BSIZE..x % BSIZE + m]
  {
    FullSlice(d, t, x / BSIZE, x % BSIZE, m);
    assert x / BSIZE * BSIZE + x % BSIZE == x;
    assert Full(d, t)[..size][x..x + m] == Full(d, t)[x..x + m];
  }

  lemma LowBitmap(sb: Super, d: Disk, e: Disk, k: nat, n: nat)
    requires Good(sb, d) && BitmapOnly(sb, d, e) && n <= sb.ninodes
    ensures OtherInodes(sb, d, e, k, n)
  {
  }

  lemma FreedOnly(sb: Super, d: Disk, e: Disk, f: Disk, trees: seq<Tree>, owner: map<nat, (nat, nat)>, k: nat)
    requires Partition(sb, trees, owner) && Freed(sb, d, e, owner, k, MAXFILE + 1)
    requires FreeSet(sb, f) == FreeSet(sb, e)
    ensures forall b :: 0 <= b < sb.size ==> (Used(sb, f, b) <==> Used(sb, d, b) && !(b in owner && owner[b].0 == k))
  {
    hide Used;
    assert forall b :: 0 <= b < sb.size ==> (b in FreeSet(sb, f) <==> !Used(sb, f, b)) && (b in FreeSet(sb, e) <==> !Used(sb, e, b));
    forall b | b in owner
      ensures owner[b].1 <= MAXFILE
    {
      assert Holds(trees, owner[b], b);
    }
  }

  lemma SameAgain(d: Disk, ts: seq<Tree>, e: Disk, f: Disk, us: seq<Tree>, k: nat)
    requires |ts| == |us| && forall j :: 0 <= j < |ts| && j != k ==> us[j] == ts[j] && SameFile(d, ts[j], e, ts[j])
    requires SameFiles(e, us, f, us)
    ensures forall j :: 0 <= j < |ts| && j != k ==> SameFile(d, ts[j], f, us[j])
  {
    hide Full;
    forall j | 0 <= j < |ts| && j != k
      ensures SameFile(d, ts[j], f, us[j])
    {
      assert SameFile(e, us[j], f, us[j]);
    }
  }

  /** The inodes other than k, among the first n, are on disk as they were. */
  ghost predicate OtherInodes(sb: Super, d: Disk, e: Disk, k: nat, n: nat) {
    |d| == |e| && forall j :: 0 <= j < n && j != k && sb.inodestart + j / IPB < |d| ==> OnDisk(sb, e, j) == OnDisk(sb, d, j)
  }

  lemma UpdateOthers(sb: Super, d: Disk, e: Disk, ip: Inode, k: nat, n: nat)
    requires sb.inodestart + k / IPB < |d| && InodeOk(ip)
    requires e == d[sb.inodestart + k / IPB := PutInode(d[sb.inodestart + k / IPB], k % IPB, ip)]
    ensures OtherInodes(sb, d, e, k, n)
  {
    hide PutInode, GetInode;
    forall j | 0 <= j < n && j != k && sb.inodestart + j / IPB < |d|
      ensures OnDisk(sb, e, j) == OnDisk(sb, d, j)
    {
      if j / IPB == k / IPB {
        assert j % IPB != k % IPB;
        OtherInodesKept(d[sb.inodestart + k / IPB], k % IPB, ip, j % IPB);
      }
    }
  }

  lemma FreedStart(sb: Super, d: Disk, owner: map<nat, (nat, nat)>, k: nat)
    ensures Freed(sb, d, d, owner, k, 0)
  {
  }

  /** Without an indirect block there is nothing left to free. */
  lemma FreeRest(sb: Super, d: Disk, e: Disk, trees: seq<Tree>, owner: map<nat, (nat, nat)>, k: nat, i: nat)
    requires 0 < sb.datastart && Partition(sb, trees, owner) && Freed(sb, d, e, owner, k, i)
    requires k < |trees| && i <= MAXFILE && forall n :: i <= n <= MAXFILE ==> trees[k][n] == 0
    ensures Freed(sb, d, e, owner, k, MAXFILE + 1)
  {
    hide Used;
    forall b | b in owner && owner[b].0 == k
      ensures owner[b].1 < i
    {
      assert Holds(trees, owner[b], b);
    }
  }

  lemma LowSelf(sb: Super, d: Disk)
    ensures LowSame(sb, d, d)
  {
  }

  lemma LowTrans(sb: Super, d: Disk, e: Disk, f: Disk)
    requires LowSame(sb, d, e) && LowSame(sb, e, f)
    ensures LowSame(sb, d, f)
  {
  }

  lemma SameTrans(d: Disk, ts: seq<Tree>, e: Disk, us: seq<Tree>, f: Disk, vs: seq<Tree>)
    requires SameFiles(d, ts, e, us) && SameFiles(e, us, f, vs)
    ensures SameFiles(d, ts, f, vs)
  {
    hide Full;
    forall j | 0 <= j < |ts|
      ensures SameFile(d, ts[j], f, vs[j])
    {
      assert SameFile(d, ts[j], e, us[j]) && SameFile(e, us[j], f, vs[j]);
    }
  }

  /** A formatted disk, with no block in use past the metadata and no block in any inode, is a valid start. */
  lemma FormattedIsOwned(sb: Super, d: Disk, inodes: seq<Inode>)
    requires Good(sb, d) && |inodes| <= sb.ninodes
    requires forall b :: 0 <= b < sb.size ==> (Used(sb, d, b) <==> b < sb.datastart)
    requires forall k :: 0 <= k < |inodes| ==> InodeOk(inodes[k]) && forall i :: 0 <= i <= NDIRECT ==> inodes[k].addrs[i] == 0
    ensures Owned(sb, d, inodes, seq(|inodes|, _ => NoBlocks()), map[])
  {
    var ts: seq<Tree> := seq(|inodes|, _ => NoBlocks());
    forall k | 0 <= k < |inodes|
      ensures Maps(d, inodes[k], ts[k])
    {
      assert ts[k] == NoBlocks();
    }
  }

  lemma FreeExists(sb: Super, d: Disk)
    ensures FreeCount(sb, d) > 0 <==> exists c :: 0 <= c < sb.size && !Used(sb, d, c)
  {
    hide Used;
    if c :| 0 <= c < sb.size && !Used(sb, d, c) {
      assert c in FreeSet(sb, d);
    } else {
      assert FreeSet(sb, d) == {};
    }
  }

  lemma InBlock(base: nat, bi: nat)
    requires base % BPB == 0 && bi < BPB
    ensures (base + bi) / BPB == base / BPB && (base + bi) % BPB == bi
  {
  }

  /** The first clear bit of a bitmap block is the first free block it describes. */
  lemma FirstFree(sb: Super, d: Disk, base: nat, bno: nat, bi: nat, limit: nat)
    requires Good(sb, d) && base % BPB == 0 && bno == BitBlock(sb, base) < |d| && bi <= limit <= BPB && base + limit <= sb.size
    requires forall c :: 0 <= c < bi ==> TestBit(d[bno][c / 8], c % 8)
    requires bi < limit ==> !TestBit(d[bno][bi / 8], bi % 8)
    ensures forall c :: base <= c < base + bi ==> Used(sb, d, c)
    ensures bi < limit ==> !Used(sb, d, base + bi) && BitBlock(sb, base + bi) == bno && (base + bi) % BPB == bi
  {
    hide TestBit;
    forall c | base <= c < base + bi
      ensures Used(sb, d, c)
    {
      InBlock(base, c - base);
      assert TestBit(d[bno][(c - base) / 8], (c - base) % 8);
    }
    if bi < limit {
      InBlock(base, bi);
    }
  }

  lemma InodeFine(sb: Super, d: Disk, inodes: seq<Inode>, trees: seq<Tree>, owner: map<nat, (nat, nat)>, k: nat)
    requires Owned(sb, d, inodes, trees, owner) && k < |inodes|
    ensures InodeOk(inodes[k]) && |trees[k]| == MAXFILE + 1
  {
    assert Maps(d, inodes[k], trees[k]);
  }

  lemma SameAll(sb: Super, d: Disk, inodes: seq<Inode>, trees: seq<Tree>, owner: map<nat, (nat, nat)>)
    requires Owned(sb, d, inodes, trees, owner)
    ensures SameFiles(d, trees, d, trees)
  {
  }

  lemma LowAllocated(sb: Super, d: Disk, b: nat)
    requires Good(sb, d) && sb.datastart <= b < sb.size
    ensures sb.bmapstart + b / BPB < |d| && LowSame(sb, d, Allocated(sb, d, b))
  {
    BitPlace(sb, d, b);
    forall c | 0 <= c < sb.bmapstart
      ensures Allocated(sb, d, b)[c] == d[c]
    {
      AllocatedSame(sb, d, b, c);
    }
  }

  lemma LowEntry(sb: Super, d: Disk, ind: nat, n: nat, b: nat)
    requires Good(sb, d) && sb.datastart <= b < sb.size && sb.datastart <= ind < sb.size && NDIRECT <= n < MAXFILE
    ensures sb.bmapstart + b / BPB < |d| && LowSame(sb, d, EntryAdded(sb, d, ind, n, b))
  {
    LowAllocated(sb, d, b);
  }

  lemma IndirectPlace(sb: Super, trees: seq<Tree>, owner: map<nat, (nat, nat)>, k: nat)
    requires Partition(sb, trees, owner) && k < |trees| && trees[k][MAXFILE] != 0
    ensures |trees[k]| == MAXFILE + 1 && sb.datastart <= trees[k][MAXFILE] < sb.size
  {
    assert owner[trees[k][MAXFILE]] == (k, MAXFILE);
  }

  lemma IndirectHigh(sb: Super, d: Disk, inodes: seq<Inode>, trees: seq<Tree>, owner: map<nat, (nat, nat)>, k: nat)
    requires Owned(sb, d, inodes, trees, owner) && k < |inodes| && trees[k][MAXFILE] != 0
    ensures sb.datastart <= inodes[k].addrs[NDIRECT] < sb.size && inodes[k].addrs[NDIRECT] == trees[k][MAXFILE]
  {
    assert Maps(d, inodes[k], trees[k]);
    assert owner[trees[k][MAXFILE]] == (k, MAXFILE);
  }
}
