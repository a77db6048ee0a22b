/**
 Block maps of fs.c on values: which disk blocks an inode owns, what bytes
 they hold, and how single steps of bmap, itrunc, writei and iupdate change
 that.
 */
module FileBlocks {
  import opened Blocks
  import opened Bitmap

  const NDIRECT: nat := 12
  const NINDIRECT: nat := 128
  const MAXFILE: nat := 140
  const MAXBYTES: nat := 71680

  /** An inode; addrs holds NDIRECT block numbers and the number of the indirect block. */
  datatype Inode = Inode(typ: nat, major: nat, minor: nat, nlink: nat, size: nat, addrs: seq<nat>)

  /** The field widths of struct dinode. */
  predicate InodeOk(ip: Inode) {
    && ip.typ < 0x1_0000 && ip.major < 0x1_0000 && ip.minor < 0x1_0000 && ip.nlink < 0x1_0000
    && ip.size < UINT && |ip.addrs| == NDIRECT + 1
    && forall i :: 0 <= i < |ip.addrs| ==> ip.addrs[i] < UINT
  }

  /**
   The blocks of one inode: the data blocks by file block number, then the
   indirect block at index MAXFILE.  0 stands for a missing block.
   */
  type Tree = seq<nat>

  // ---------- Ownership ----------

  /** Does place x of some inode hold block b? */
  ghost predicate Holds(trees: seq<Tree>, x: (nat, nat), b: nat) {
    x.0 < |trees| && x.1 < |trees[x.0]| && trees[x.0][x.1] == b
  }

  /** Every block named by an inode is a data block with one owner, and owners name their blocks. */
  ghost predicate Partition(sb: Super, trees: seq<Tree>, owner: map<nat, (nat, nat)>) {
    && (forall k :: 0 <= k < |trees| ==> |trees[k]| == MAXFILE + 1)
    && (forall k, i :: 0 <= k < |trees| && 0 <= i < |trees[k]| && trees[k][i] != 0 ==>
          trees[k][i] in owner && owner[trees[k][i]] == (k, i))
    && forall b :: b in owner ==> sb.datastart <= b < sb.size && Holds(trees, owner[b], b)
  }

  /** The bitmap marks the metadata blocks and the owned blocks, and nothing else. */
  ghost predicate Marked(sb: Super, d: Disk, owner: map<nat, (nat, nat)>) {
    forall b :: 0 <= b < sb.size ==> (Used(sb, d, b) <==> b < sb.datastart || b in owner)
  }

  /** The inode and its indirect block spell out tree t. */
  ghost predicate Maps(d: Disk, ip: Inode, t: Tree) {
    && InodeOk(ip) && |t| == MAXFILE + 1 && t[MAXFILE] == ip.addrs[NDIRECT] && t[MAXFILE] < |d|
    && (forall n :: 0 <= n < NDIRECT ==> ip.addrs[n] == t[n])
    && forall n :: NDIRECT <= n < MAXFILE ==> t[n] == Entry(d, t[MAXFILE], n - NDIRECT)
  }

  /** Entry j of indirect block b, 0 when there is no such block. */
  function Entry(d: Disk, b: nat, j: nat): nat
    requires b < |d| && j < NINDIRECT
  {
    if b == 0 then 0 else GetWord(d[b], j)
  }

  ghost predicate Owned(sb: Super, d: Disk, inodes: seq<Inode>, trees: seq<Tree>, owner: map<nat, (nat, nat)>) {
    && Good(sb, d) && |inodes| == |trees| <= sb.ninodes
    && Partition(sb, trees, owner) && Marked(sb, d, owner)
    && forall k :: 0 <= k < |inodes| ==> Maps(d, inodes[k], trees[k])
  }

  /** No block has two places: not in one inode, not in two. */
  lemma OneOwner(sb: Super, trees: seq<Tree>, owner: map<nat, (nat, nat)>, k: nat, i: nat, l: nat, j: nat)
    requires Partition(sb, trees, owner) && k < |trees| && l < |trees| && i <= MAXFILE && j <= MAXFILE
    requires trees[k][i] == trees[l][j] != 0
    ensures k == l && i == j
  {
    assert owner[trees[k][i]] == (k, i) && owner[trees[l][j]] == (l, j);
  }

  /** The owned blocks and the free blocks make up the data area, without overlap. */
  lemma DataAreaSplit(sb: Super, d: Disk, inodes: seq<Inode>, trees: seq<Tree>, owner: map<nat, (nat, nat)>, b: nat)
    requires Owned(sb, d, inodes, trees, owner) && sb.datastart <= b < sb.size
    ensures Used(sb, d, b) <==> exists k, i :: 0 <= k < |trees| && 0 <= i < |trees[k]| && trees[k][i] == b
  {
    assert sb.datastart > 0;
    if Used(sb, d, b) {
      assert Holds(trees, owner[b], b);
      var x := owner[b];
      assert trees[x.0][x.1] == b;
    }
  }

  /** Place i of inode k made b. */
  function Plant(trees: seq<Tree>, k: nat, i: nat, b: nat): (r: seq<Tree>)
    requires k < |trees| && i < |trees[k]|
  {
    var t: Tree := trees[k][i := b];
    trees[k := t]
  }

  lemma AssignPartition(sb: Super, trees: seq<Tree>, owner: map<nat, (nat, nat)>, k: nat, i: nat, b: nat)
    requires Partition(sb, trees, owner) && k < |trees| && i <= MAXFILE
    requires trees[k][i] == 0 && b !in owner && 0 < sb.datastart <= b < sb.size
    ensures Partition(sb, Plant(trees, k, i, b), owner[b := (k, i)])
  {
    var trees', owner' := Plant(trees, k, i, b), owner[b := (k, i)];
    forall l, j | 0 <= l < |trees'| && 0 <= j < |trees'[l]| && trees'[l][j] != 0
      ensures trees'[l][j] in owner' && owner'[trees'[l][j]] == (l, j)
    {
      if (l, j) != (k, i) {
        assert trees'[l][j] == trees[l][j];
      }
    }
    forall c | c in owner'
      ensures sb.datastart <= c < sb.size && Holds(trees', owner'[c], c)
    {
      if c != b {
        assert Holds(trees, owner[c], c);
      }
    }
  }

  /** balloc's block is a data block nobody owned. */
  lemma AllocatedMarked(sb: Super, d: Disk, owner: map<nat, (nat, nat)>, b: nat, x: (nat, nat))
    requires Good(sb, d) && Marked(sb, d, owner) && b < sb.size && !Used(sb, d, b)
    ensures sb.datastart <= b && b !in owner && sb.bmapstart + b / BPB < |d|
    ensures Marked(sb, Allocated(sb, d, b), owner[b := x])
  {
    BitPlace(sb, d, b);
    forall c | 0 <= c < sb.size
      ensures Used(sb, Allocated(sb, d, b), c) <==> c < sb.datastart || c in owner[b := x]
    {
      BitPlace(sb, d, c);
      UsedMark(sb, d, b, true, c);
      UsedElsewhere(sb, Mark(sb, d, b, true), b, ZeroBlock(), c);
    }
  }

  lemma MarkSame(sb: Super, d: Disk, b: nat, v: bool, c: nat)
    requires Good(sb, d) && b < sb.size && c < |d| && (c < sb.bmapstart || sb.datastart <= c)
    ensures sb.bmapstart + b / BPB < |d| && Mark(sb, d, b, v)[c] == d[c]
  {
    BitPlace(sb, d, b);
  }

  /** Writing a data block leaves the bitmap alone. */
  lemma StoreMarked(sb: Super, d: Disk, owner: map<nat, (nat, nat)>, c: nat, data: Block)
    requires Good(sb, d) && Marked(sb, d, owner) && c < |d| && (c < sb.bmapstart || sb.datastart <= c)
    ensures Marked(sb, d[c := data], owner)
  {
    var e: Disk := d[c := data];
    forall b: int | 0 <= b < sb.size
      ensures Used(sb, e, b) <==> b < sb.datastart || b in owner
    {
      BitPlace(sb, d, b);
      UsedElsewhere(sb, d, c, data, b);
    }
    assert Marked(sb, e, owner);
  }

  /** The map of an inode depends on its indirect block alone. */
  lemma MapsSame(d: Disk, e: Disk, ip: Inode, t: Tree)
    requires Maps(d, ip, t) && |d| == |e| && (t[MAXFILE] != 0 ==> e[t[MAXFILE]] == d[t[MAXFILE]])
    ensures Maps(e, ip, t)
  {
  }

  // ---------- Contents ----------

  /** The data of block a, zeros when it is missing. */
  function Data(d: Disk, a: nat): Block {
    if a == 0 || a >= |d| then ZeroBlock() else d[a]
  }

  function ByteAt(d: Disk, t: Tree, x: nat): Byte
    requires |t| == MAXFILE + 1 && x < MAXBYTES
  {
    Data(d, t[x / BSIZE])[x % BSIZE]
  }

  /** Every byte a file could hold, in order; missing blocks are zeros, as bmap would make them. */
  function Full(d: Disk, t: Tree): (r: seq<Byte>)
    requires |t| == MAXFILE + 1
    ensures |r| == MAXBYTES
  {
    seq(MAXBYTES, x requires 0 <= x < MAXBYTES => ByteAt(d, t, x))
  }

  lemma FullAt(d: Disk, t: Tree, x: nat)
    requires |t| == MAXFILE + 1 && x < MAXBYTES
    ensures Full(d, t)[x] == Data(d, t[x / BSIZE])[x % BSIZE]
  {
  }

  lemma FullSame(d: Disk, t: Tree, e: Disk, u: Tree)
    requires |t| == |u| == MAXFILE + 1
    requires forall n :: 0 <= n < MAXFILE ==> Data(e, u[n]) == Data(d, t[n])
    ensures Full(e, u) == Full(d, t)
  {
    forall x: nat | x < MAXBYTES
      ensures Full(e, u)[x] == Full(d, t)[x]
    {
      FullAt(d, t, x);
      FullAt(e, u, x);
    }
    hide Full;
  }

  /** s with the bytes from off on replaced. */
  function Patch(s: seq<Byte>, off: nat, bytes: seq<Byte>): (r: seq<Byte>)
    requires off + |bytes| <= |s|
    ensures |r| == |s|
  {
    s[..off] + bytes + s[off + |bytes|..]
  }

  lemma PatchAt(s: seq<Byte>, off: nat, bytes: seq<Byte>, x: nat)
    requires off + |bytes| <= |s| && x < |s|
    ensures Patch(s, off, bytes)[x] == if off <= x < off + |bytes| then bytes[x - off] else s[x]
  {
  }

  /** Storing into one block of a file stores at the matching offset of the file. */
  lemma FullStore(d: Disk, t: Tree, n: nat, o: nat, bytes: seq<Byte>)
    requires |t| == MAXFILE + 1 && n < MAXFILE && 0 < t[n] < |d| && o + |bytes| <= BSIZE
    requires forall m :: 0 <= m < MAXFILE && m != n ==> t[m] != t[n]
    ensures n * BSIZE + o + |bytes| <= MAXBYTES
    ensures Full(d[t[n] := Patch(d[t[n]], o, bytes)], t) == Patch(Full(d, t), n * BSIZE + o, bytes)
  {
    var e := d[t[n] := Patch(d[t[n]], o, bytes)];
    hide Full, Patch;
    forall x: nat | x < MAXBYTES
      ensures Full(e, t)[x] == Patch(Full(d, t), n * BSIZE + o, bytes)[x]
    {
      FullAt(d, t, x);
      FullAt(e, t, x);
      PatchAt(Full(d, t), n * BSIZE + o, bytes, x);
      if x / BSIZE == n {
        PatchAt(d[t[n]], o, bytes, x % BSIZE);
      }
    }
  }

  /** A read inside one block of a file. */
  lemma FullSlice(d: Disk, t: Tree, n: nat, o: nat, m: nat)
    requires |t| == MAXFILE + 1 && n < MAXFILE && o + m <= BSIZE
    ensures n * BSIZE + o + m <= MAXBYTES
    ensures Full(d, t)[n * BSIZE + o..n * BSIZE + o + m] == Data(d, t[n])[o..o + m]
  {
    var lo := n * BSIZE + o;
    forall x | lo <= x < lo + m
      ensures Full(d, t)[x] == Data(d, t[n])[x - n * BSIZE]
    {
      FullAt(d, t, x);
    }
    hide Full;
    var s := Full(d, t)[lo..lo + m];
    assert forall i :: 0 <= i < |s| ==> s[i] == Full(d, t)[lo + i];
  }

  /** Every file holds the same bytes. */
  ghost predicate SameFiles(d: Disk, trees: seq<Tree>, e: Disk, trees': seq<Tree>) {
    |trees| == |trees'| && forall j :: 0 <= j < |trees| ==> SameFile(d, trees[j], e, trees'[j])
  }

  ghost predicate SameFile(d: Disk, t: Tree, e: Disk, u: Tree) {
    |t| == |u| == MAXFILE + 1 && Full(e, u) == Full(d, t)
  }

  // ---------- Steps ----------

  /** The address field of place i. */
  function Field(i: nat): nat {
    if i == MAXFILE then NDIRECT else i
  }

  function SetAddr(ip: Inode, i: nat, b: nat): Inode
    requires |ip.addrs| == NDIRECT + 1 && Field(i) <= NDIRECT
  {
    ip.(addrs := ip.addrs[Field(i) := b])
  }

  lemma AllocatedSame(sb: Super, d: Disk, b: nat, c: nat)
    requires Good(sb, d) && b < sb.size && c < |d| && c != b && (c < sb.bmapstart || sb.datastart <= c)
    ensures sb.bmapstart + b / BPB < |d| && Allocated(sb, d, b)[c] == d[c]
  {
    MarkSame(sb, d, b, true, c);
  }

  /** An owned block other than the new one keeps its data. */
  lemma PlantSame(sb: Super, d: Disk, e: Disk, trees: seq<Tree>, owner: map<nat, (nat, nat)>, k: nat, i: nat, b: nat)
    requires Partition(sb, trees, owner) && k < |trees| && i <= MAXFILE && trees[k][i] == 0 && b < |e| == |d|
    requires i < MAXFILE ==> e[b] == ZeroBlock()
    requires forall c :: c in owner && owner[c].1 < MAXFILE ==> c < |d| && e[c] == d[c]
    ensures SameFiles(d, trees, e, Plant(trees, k, i, b))
  {
    var trees' := Plant(trees, k, i, b);
    forall j | 0 <= j < |trees|
      ensures SameFile(d, trees[j], e, trees'[j])
    {
      forall n | 0 <= n < MAXFILE
        ensures Data(e, trees'[j][n]) == Data(d, trees[j][n])
      {
        if (j, n) != (k, i) && trees[j][n] != 0 {
          assert owner[trees[j][n]] == (j, n);
        }
      }
      FullSame(d, trees[j], e, trees'[j]);
    }
  }

  /** bmap gives an inode a direct block or its indirect block. */
  lemma PlantDirect(sb: Super, d: Disk, inodes: seq<Inode>, trees: seq<Tree>, owner: map<nat, (nat, nat)>, k: nat, i: nat, b: nat)
    requires Owned(sb, d, inodes, trees, owner) && k < |inodes| && (i < NDIRECT || i == MAXFILE)
    requires trees[k][i] == 0 && b < sb.size && !Used(sb, d, b)
    ensures sb.bmapstart + b / BPB < |d|
    ensures Owned(sb, Allocated(sb, d, b), inodes[k := SetAddr(inodes[k], i, b)], Plant(trees, k, i, b), owner[b := (k, i)])
    ensures SameFiles(d, trees, Allocated(sb, d, b), Plant(trees, k, i, b))
  {
    assert InodeOk(inodes[k]);
    hide Used, Marked, Full, SameFiles, Maps, Allocated, Partition;
    AllocatedMarked(sb, d, owner, b, (k, i));
    AllocatedShape(sb, d, b);
    AssignPartition(sb, trees, owner, k, i, b);
    AllocatedKeeps(sb, d, trees, owner, b);
    PlantSame(sb, d, Allocated(sb, d, b), trees, owner, k, i, b);
    DirectMaps(sb, d, Allocated(sb, d, b), inodes, trees, owner, k, i, b);
  }

  lemma AllocatedKeeps(sb: Super, d: Disk, trees: seq<Tree>, owner: map<nat, (nat, nat)>, b: nat)
    requires Good(sb, d) && Partition(sb, trees, owner) && b < sb.size && b !in owner
    ensures sb.bmapstart + b / BPB < |d| && forall c :: c in owner ==> c < |d| && Allocated(sb, d, b)[c] == d[c]
  {
    BitPlace(sb, d, b);
    forall c | c in owner
      ensures c < |d| && Allocated(sb, d, b)[c] == d[c]
    {
      AllocatedSame(sb, d, b, c);
    }
  }

  lemma DirectMaps(sb: Super, d: Disk, e: Disk, inodes: seq<Inode>, trees: seq<Tree>, owner: map<nat, (nat, nat)>, k: nat, i: nat, b: nat)
    requires Owned(sb, d, inodes, trees, owner) && k < |inodes| && (i < NDIRECT || i == MAXFILE)
    requires trees[k][i] == 0 && b < sb.size && |e| == |d| && e[b] == ZeroBlock()
    requires forall c :: c in owner ==> c < |d| && e[c] == d[c]
    ensures InodeOk(inodes[k])
    ensures forall j :: 0 <= j < |inodes| ==> Maps(e, inodes[k := SetAddr(inodes[k], i, b)][j], Plant(trees, k, i, b)[j])
  {
    hide Used, Marked;
    forall j | 0 <= j < |inodes|
      ensures Maps(e, inodes[k := SetAddr(inodes[k], i, b)][j], Plant(trees, k, i, b)[j])
    {
      OthersMap(sb, d, e, inodes[j], trees, owner, j);
      if j == k {
        PlantMaps(e, inodes[k], trees[k], i, b);
      }
    }
  }

  lemma OthersMap(sb: Super, d: Disk, e: Disk, ip: Inode, trees: seq<Tree>, owner: map<nat, (nat, nat)>, j: nat)
    requires Partition(sb, trees, owner) && j < |trees| && Maps(d, ip, trees[j]) && |d| == |e| >= sb.size
    requires forall c :: c in owner ==> e[c] == d[c]
    ensures Maps(e, ip, trees[j])
  {
    var x := trees[j][MAXFILE];
    assert x != 0 ==> owner[x] == (j, MAXFILE);
    MapsSame(d, e, ip, trees[j]);
  }

  lemma AllocatedShape(sb: Super, d: Disk, b: nat)
    requires sb.bmapstart + b / BPB < |d| && b < |d|
    ensures |Allocated(sb, d, b)| == |d| && Allocated(sb, d, b)[b] == ZeroBlock()
  {
  }

  lemma PlantMaps(e: Disk, ip: Inode, t: Tree, i: nat, b: nat)
    requires Maps(e, ip, t) && (i < NDIRECT || i == MAXFILE) && t[i] == 0 && b < |e| <= UINT && e[b] == ZeroBlock()
    ensures Maps(e, SetAddr(ip, i, b), t[i := b])
  {
    var u: Tree := t[i := b];
    forall n | NDIRECT <= n < MAXFILE
      ensures u[n] == Entry(e, u[MAXFILE], n - NDIRECT)
    {
      ZeroWord(n - NDIRECT);
    }
    hide GetWord;
  }

  /** The disk after bmap filled entry n of the indirect block. */
  function EntryAdded(sb: Super, d: Disk, ind: nat, n: nat, b: nat): Disk
    requires sb.bmapstart + b / BPB < |d| && b < |d| <= UINT && ind < |d| && NDIRECT <= n < MAXFILE
  {
    Allocated(sb, d, b)[ind := SetWord(d[ind], n - NDIRECT, b)]
  }

  /** bmap gives an inode a block behind its indirect block. */
  lemma PlantEntry(sb: Super, d: Disk, inodes: seq<Inode>, trees: seq<Tree>, owner: map<nat, (nat, nat)>, k: nat, n: nat, b: nat)
    requires Owned(sb, d, inodes, trees, owner) && k < |inodes| && NDIRECT <= n < MAXFILE
    requires trees[k][MAXFILE] != 0 && trees[k][n] == 0 && b < sb.size && !Used(sb, d, b)
    ensures sb.bmapstart + b / BPB < |d|
    ensures var e := EntryAdded(sb, d, trees[k][MAXFILE], n, b);
            && Owned(sb, e, inodes, Plant(trees, k, n, b), owner[b := (k, n)])
            && SameFiles(d, trees, e, Plant(trees, k, n, b))
  {
    var ind, trees', owner' := trees[k][MAXFILE], Plant(trees, k, n, b), owner[b := (k, n)];
    assert owner[ind] == (k, MAXFILE);
    AllocatedMarked(sb, d, owner, b, (k, n));
    var e := EntryAdded(sb, d, ind, n, b);
    AssignPartition(sb, trees, owner, k, n, b);
    StoreMarked(sb, Allocated(sb, d, b), owner', ind, SetWord(d[ind], n - NDIRECT, b));
    forall c | c in owner && c != ind
      ensures e[c] == d[c]
    {
      AllocatedSame(sb, d, b, c);
    }
    PlantSame(sb, d, e, trees, owner, k, n, b);
    forall j | 0 <= j < |inodes|
      ensures Maps(e, inodes[j], trees'[j])
    {
      var x := trees[j][MAXFILE];
      assert x != 0 ==> owner[x] == (j, MAXFILE);
      if j != k {
        MapsSame(d, e, inodes[j], trees[j]);
      } else {
        EntryMaps(d, e, inodes[k], trees[k], n, b);
      }
    }
  }

  lemma EntryMaps(d: Disk, e: Disk, ip: Inode, t: Tree, n: nat, b: nat)
    requires Maps(d, ip, t) && t[MAXFILE] != 0 && NDIRECT <= n < MAXFILE && b < UINT && |d| == |e|
    requires e[t[MAXFILE]] == SetWord(d[t[MAXFILE]], n - NDIRECT, b)
    ensures Maps(e, ip, t[n := b])
  {
    var u: Tree := t[n := b];
    forall m | NDIRECT <= m < MAXFILE
      ensures u[m] == Entry(e, t[MAXFILE], m - NDIRECT)
    {
      GetSetWord(d[t[MAXFILE]], n - NDIRECT, b, m - NDIRECT);
    }
    hide GetWord, SetWord;
  }

  /** writei stores into data block n of inode k. */
  lemma StoreData(sb: Super, d: Disk, inodes: seq<Inode>, trees: seq<Tree>, owner: map<nat, (nat, nat)>, k: nat, n: nat, o: nat, bytes: seq<Byte>)
    requires Owned(sb, d, inodes, trees, owner) && k < |inodes| && n < MAXFILE && trees[k][n] != 0 && o + |bytes| <= BSIZE
    ensures trees[k][n] < |d|
    ensures var e := d[trees[k][n] := Patch(d[trees[k][n]], o, bytes)];
            && Owned(sb, e, inodes, trees, owner)
            && (forall j :: 0 <= j < |trees| && j != k ==> SameFile(d, trees[j], e, trees[j]))
            && Full(e, trees[k]) == Patch(Full(d, trees[k]), n * BSIZE + o, bytes)
  {
    var a := trees[k][n];
    assert owner[a] == (k, n);
    var e: Disk := d[a := Patch(d[a], o, bytes)];
    StoreMarked(sb, d, owner, a, Patch(d[a], o, bytes));
    forall j | 0 <= j < |trees|
      ensures Maps(e, inodes[j], trees[j]) && (j != k ==> SameFile(d, trees[j], e, trees[j]))
    {
      StoreKeeps(sb, d, e, inodes[j], trees, owner, k, n, j);
    }
    forall m | 0 <= m < MAXFILE && m != n
      ensures trees[k][m] != a
    {
      if trees[k][m] == a {
        OneOwner(sb, trees, owner, k, n, k, m);
      }
    }
    FullStore(d, trees[k], n, o, bytes);
  }

  lemma StoreKeeps(sb: Super, d: Disk, e: Disk, ip: Inode, trees: seq<Tree>, owner: map<nat, (nat, nat)>, k: nat, n: nat, j: nat)
    requires Partition(sb, trees, owner) && k < |trees| && j < |trees| && n < MAXFILE && trees[k][n] != 0
    requires Maps(d, ip, trees[j]) && |d| == |e| && forall c :: 0 <= c < |d| && c != trees[k][n] ==> e[c] == d[c]
    ensures Maps(e, ip, trees[j]) && (j != k ==> SameFile(d, trees[j], e, trees[j]))
  {
    var x, a := trees[j][MAXFILE], trees[k][n];
    assert owner[a] == (k, n);
    assert x != 0 ==> owner[x] == (j, MAXFILE);
    MapsSame(d, e, ip, trees[j]);
    if j != k {
      forall m | 0 <= m < MAXFILE
        ensures Data(e, trees[j][m]) == Data(d, trees[j][m])
      {
        assert trees[j][m] != 0 ==> owner[trees[j][m]] == (j, m);
      }
      FullSame(d, trees[j], e, trees[j]);
    }
  }

  /** A change outside the bitmap and the data area, such as iupdate's, keeps everything. */
  lemma StoreLow(sb: Super, d: Disk, inodes: seq<Inode>, trees: seq<Tree>, owner: map<nat, (nat, nat)>, c: nat, data: Block)
    requires Owned(sb, d, inodes, trees, owner) && c < sb.bmapstart
    ensures c < |d| && Owned(sb, d[c := data], inodes, trees, owner) && SameFiles(d, trees, d[c := data], trees)
  {
    var e: Disk := d[c := data];
    StoreMarked(sb, d, owner, c, data);
    forall j | 0 <= j < |trees|
      ensures Maps(e, inodes[j], trees[j]) && SameFile(d, trees[j], e, trees[j])
    {
      var x := trees[j][MAXFILE];
      assert x != 0 ==> owner[x] == (j, MAXFILE);
      MapsSame(d, e, inodes[j], trees[j]);
      forall m | 0 <= m < MAXFILE
        ensures Data(e, trees[j][m]) == Data(d, trees[j][m])
      {
        assert trees[j][m] != 0 ==> owner[trees[j][m]] == (j, m);
      }
      FullSame(d, trees[j], e, trees[j]);
    }
  }

  // ---------- Truncation ----------

  function NoBlocks(): Tree {
    seq(MAXFILE + 1, _ => 0)
  }

  /** The owners without inode k. */
  function Disowned(owner: map<nat, (nat, nat)>, k: nat): map<nat, (nat, nat)> {
    map b | b in owner && owner[b].0 != k :: owner[b]
  }

  /** The blocks of inode k at places before i are free; every other bit is as it was. */
  ghost predicate Freed(sb: Super, d: Disk, e: Disk, owner: map<nat, (nat, nat)>, k: nat, i: nat) {
    forall b :: 0 <= b < sb.size ==>
      (Used(sb, e, b) <==> Used(sb, d, b) && !(b in owner && owner[b].0 == k && owner[b].1 < i))
  }

  /** Only bitmap blocks differ. */
  ghost predicate BitmapOnly(sb: Super, d: Disk, e: Disk) {
    |d| == |e| && forall c :: 0 <= c < |d| && (c < sb.bmapstart || sb.datastart <= c) ==> e[c] == d[c]
  }

  /** A block of inode k not yet given back is still marked: bfree cannot panic. */
  lemma StillMarked(sb: Super, d: Disk, e: Disk, trees: seq<Tree>, owner: map<nat, (nat, nat)>, k: nat, i: nat)
    requires Partition(sb, trees, owner) && Marked(sb, d, owner) && Freed(sb, d, e, owner, k, i)
    requires k < |trees| && i <= MAXFILE && trees[k][i] != 0
    ensures trees[k][i] < sb.size && Used(sb, e, trees[k][i])
  {
    assert owner[trees[k][i]] == (k, i);
  }

  /** One bfree of itrunc. */
  lemma FreeOne(sb: Super, d: Disk, e: Disk, trees: seq<Tree>, owner: map<nat, (nat, nat)>, k: nat, i: nat)
    requires Good(sb, d) && Partition(sb, trees, owner) && Freed(sb, d, e, owner, k, i) && BitmapOnly(sb, d, e)
    requires k < |trees| && i <= MAXFILE && trees[k][i] != 0
    ensures trees[k][i] < sb.size && sb.bmapstart + trees[k][i] / BPB < |e|
    ensures Freed(sb, d, Mark(sb, e, trees[k][i], false), owner, k, i + 1)
    ensures BitmapOnly(sb, d, Mark(sb, e, trees[k][i], false))
  {
    var a := trees[k][i];
    assert owner[a] == (k, i);
    BitPlace(sb, e, a);
    var f := Mark(sb, e, a, false);
    forall b | 0 <= b < sb.size
      ensures Used(sb, f, b) <==> Used(sb, d, b) && !(b in owner && owner[b].0 == k && owner[b].1 < i + 1)
    {
      BitPlace(sb, e, b);
      UsedMark(sb, e, a, false, b);
      assert b in owner && owner[b] == (k, i) ==> Holds(trees, owner[b], b);
    }
  }

  /** A missing block needs no bfree. */
  lemma FreeNone(sb: Super, d: Disk, e: Disk, trees: seq<Tree>, owner: map<nat, (nat, nat)>, k: nat, i: nat)
    requires 0 < sb.datastart && Partition(sb, trees, owner) && Freed(sb, d, e, owner, k, i)
    requires k < |trees| && i <= MAXFILE && trees[k][i] == 0
    ensures Freed(sb, d, e, owner, k, i + 1)
  {
    forall b | b in owner && owner[b].0 == k
      ensures owner[b].1 != i
    {
      assert Holds(trees, owner[b], b);
    }
  }

  /** itrunc gives back exactly the blocks of inode k. */
  lemma Truncated(sb: Super, d: Disk, e: Disk, inodes: seq<Inode>, trees: seq<Tree>, owner: map<nat, (nat, nat)>, k: nat, ip: Inode)
    requires Owned(sb, d, inodes, trees, owner) && k < |inodes| && BitmapOnly(sb, d, e) && Freed(sb, d, e, owner, k, MAXFILE + 1)
    requires InodeOk(ip) && forall i :: 0 <= i <= NDIRECT ==> ip.addrs[i] == 0
    ensures Owned(sb, e, inodes[k := ip], trees[k := NoBlocks()], Disowned(owner, k))
    ensures forall j :: 0 <= j < |trees| && j != k ==> SameFile(d, trees[j], e, trees[j])
  {
    TruncatedPartition(sb, trees, owner, k);
    TruncatedMarked(sb, d, e, trees, owner, k);
    var trees', inodes' := trees[k := NoBlocks()], inodes[k := ip];
    forall j | 0 <= j < |trees|
      ensures Maps(e, inodes'[j], trees'[j])
      ensures j != k ==> SameFile(d, trees[j], e, trees[j])
    {
      if j != k {
        OthersKept(sb, d, e, inodes[j], trees, owner, j);
      }
    }
  }

  lemma TruncatedPartition(sb: Super, trees: seq<Tree>, owner: map<nat, (nat, nat)>, k: nat)
    requires Partition(sb, trees, owner) && k < |trees|
    ensures Partition(sb, trees[k := NoBlocks()], Disowned(owner, k))
  {
    var trees', owner' := trees[k := NoBlocks()], Disowned(owner, k);
    forall l, j | 0 <= l < |trees'| && 0 <= j < |trees'[l]| && trees'[l][j] != 0
      ensures trees'[l][j] in owner' && owner'[trees'[l][j]] == (l, j)
    {
      assert l != k && trees'[l][j] == trees[l][j];
    }
    forall c | c in owner'
      ensures sb.datastart <= c < sb.size && Holds(trees', owner'[c], c)
    {
      assert Holds(trees, owner[c], c);
    }
  }

  lemma TruncatedMarked(sb: Super, d: Disk, e: Disk, trees: seq<Tree>, owner: map<nat, (nat, nat)>, k: nat)
    requires Partition(sb, trees, owner) && Marked(sb, d, owner) && Freed(sb, d, e, owner, k, MAXFILE + 1)
    ensures Marked(sb, e, Disowned(owner, k))
  {
    forall b | 0 <= b < sb.size
      ensures Used(sb, e, b) <==> b < sb.datastart || b in Disowned(owner, k)
    {
      assert b in owner ==> Holds(trees, owner[b], b);
    }
  }

  lemma OthersKept(sb: Super, d: Disk, e: Disk, ip: Inode, trees: seq<Tree>, owner: map<nat, (nat, nat)>, j: nat)
    requires Partition(sb, trees, owner) && j < |trees| && Maps(d, ip, trees[j])
    requires sb.size <= |d| && BitmapOnly(sb, d, e)
    ensures Maps(e, ip, trees[j]) && SameFile(d, trees[j], e, trees[j])
  {
    var x := trees[j][MAXFILE];
    assert x != 0 ==> owner[x] == (j, MAXFILE);
    MapsSame(d, e, ip, trees[j]);
    forall m | 0 <= m < MAXFILE
      ensures Data(e, trees[j][m]) == Data(d, trees[j][m])
    {
      assert trees[j][m] != 0 ==> owner[trees[j][m]] == (j, m);
    }
    FullSame(d, trees[j], e, trees[j]);
  }

  // ---------- Inodes on disk ----------

  /** Words per inode. */
  const IWORDS: nat := 16

  /** The inode in slot s of an inode block. */
  function GetInode(b: Block, s: nat): Inode
    requires s < IPB
  {
    var w, v := GetWord(b, IWORDS * s), GetWord(b, IWORDS * s + 1);
    Inode(w % 0x1_0000, w / 0x1_0000, v % 0x1_0000, v / 0x1_0000, GetWord(b, IWORDS * s + 2),
          seq<nat>(NDIRECT + 1, i requires 0 <= i <= NDIRECT => GetWord(b, IWORDS * s + 3 + i)))
  }

  function PutAddrs(b: Block, s: nat, addrs: seq<nat>, n: nat): Block
    requires s < IPB && n <= |addrs| == NDIRECT + 1 && forall i :: 0 <= i < |addrs| ==> addrs[i] < UINT
  {
    if n == 0 then b else SetWord(PutAddrs(b, s, addrs, n - 1), IWORDS * s + 2 + n, addrs[n - 1])
  }

  /** iupdate's stores into slot s. */
  function PutInode(b: Block, s: nat, ip: Inode): Block
    requires s < IPB && InodeOk(ip)
  {
    var b1 := SetWord(b, IWORDS * s, ip.typ + 0x1_0000 * ip.major);
    var b2 := SetWord(b1, IWORDS * s + 1, ip.minor + 0x1_0000 * ip.nlink);
    PutAddrs(SetWord(b2, IWORDS * s + 2, ip.size), s, ip.addrs, NDIRECT + 1)
  }

  lemma {:induction false} PutAddrsWord(b: Block, s: nat, addrs: seq<nat>, n: nat, j: nat)
    requires s < IPB && n <= |addrs| == NDIRECT + 1 && j < WORDS && forall i :: 0 <= i < |addrs| ==> addrs[i] < UINT
    ensures GetWord(PutAddrs(b, s, addrs, n), j)
         == if IWORDS * s + 3 <= j < IWORDS * s + 3 + n then addrs[j - IWORDS * s - 3] else GetWord(b, j)
  {
    hide GetWord, SetWord;
    if n > 0 {
      PutAddrsWord(b, s, addrs, n - 1, j);
      GetSetWord(PutAddrs(b, s, addrs, n - 1), IWORDS * s + 2 + n, addrs[n - 1], j);
    }
  }

  lemma PutInodeWord(b: Block, s: nat, ip: Inode, j: nat)
    requires s < IPB && InodeOk(ip) && j < WORDS
    ensures GetWord(PutInode(b, s, ip), j)
         == if j == IWORDS * s then ip.typ + 0x1_0000 * ip.major
            else if j == IWORDS * s + 1 then ip.minor + 0x1_0000 * ip.nlink
            else if j == IWORDS * s + 2 then ip.size
            else if IWORDS * s + 3 <= j <= IWORDS * s + 3 + NDIRECT then ip.addrs[j - IWORDS * s - 3]
            else GetWord(b, j)
  {
    hide GetWord, SetWord;
    var b1 := SetWord(b, IWORDS * s, ip.typ + 0x1_0000 * ip.major);
    var b2 := SetWord(b1, IWORDS * s + 1, ip.minor + 0x1_0000 * ip.nlink);
    GetSetWord(b, IWORDS * s, ip.typ + 0x1_0000 * ip.major, j);
    GetSetWord(b1, IWORDS * s + 1, ip.minor + 0x1_0000 * ip.nlink, j);
    GetSetWord(b2, IWORDS * s + 2, ip.size, j);
    PutAddrsWord(SetWord(b2, IWORDS * s + 2, ip.size), s, ip.addrs, NDIRECT + 1, j);
  }

  /** An inode written to its slot reads back. */
  lemma InodeRoundTrip(b: Block, s: nat, ip: Inode)
    requires s < IPB && InodeOk(ip)
    ensures GetInode(PutInode(b, s, ip), s) == ip
  {
    hide GetWord, PutInode;
    var c := PutInode(b, s, ip);
    PutInodeWord(b, s, ip, IWORDS * s);
    PutInodeWord(b, s, ip, IWORDS * s + 1);
    PutInodeWord(b, s, ip, IWORDS * s + 2);
    var x := GetInode(c, s);
    forall i | 0 <= i <= NDIRECT
      ensures x.addrs[i] == ip.addrs[i]
    {
      PutInodeWord(b, s, ip, IWORDS * s + 3 + i);
    }
    assert x.addrs == ip.addrs;
  }

  /** The other inodes of the block keep their slots. */
  lemma OtherInodesKept(b: Block, s: nat, ip: Inode, t: nat)
    requires s < IPB && InodeOk(ip) && t < IPB && t != s
    ensures GetInode(PutInode(b, s, ip), t) == GetInode(b, t)
  {
    hide GetWord, PutInode;
    var c := PutInode(b, s, ip);
    PutInodeWord(b, s, ip, IWORDS * t);
    PutInodeWord(b, s, ip, IWORDS * t + 1);
    PutInodeWord(b, s, ip, IWORDS * t + 2);
    var x, y := GetInode(c, t), GetInode(b, t);
    forall i | 0 <= i <= NDIRECT
      ensures x.addrs[i] == y.addrs[i]
    {
      PutInodeWord(b, s, ip, IWORDS * t + 3 + i);
    }
    assert x.addrs == y.addrs;
  }

  /** Inode k as the disk has it. */
  function OnDisk(sb: Super, d: Disk, k: nat): Inode
    requires sb.inodestart + k / IPB < |d|
  {
    GetInode(d[sb.inodestart + k / IPB], k % IPB)
  }
}
