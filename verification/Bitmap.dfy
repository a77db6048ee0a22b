/** The free bitmap of fs.c: one bit per disk block, found and flipped inside bytes of bitmap blocks. */
module Bitmap {
  import opened Blocks

  /** Bits per bitmap block. */
  const BPB: nat := 4096

  /** The super block; data blocks are those from datastart on. */
  datatype Super = Super(size: nat, ninodes: nat, inodestart: nat, bmapstart: nat, datastart: nat)

  /** The layout that mkfs computes: boot, super, log, inodes, bitmap, data. */
  ghost predicate Good(sb: Super, d: Disk) {
    && 2 <= sb.inodestart && sb.inodestart + sb.ninodes / 8 < sb.bmapstart
    && sb.bmapstart + sb.size / BPB < sb.datastart <= sb.size
    && sb.size <= |d| <= UINT
  }

  // ---------- Bits of a byte ----------

  predicate TestBit(x: nat, i: nat) {
    if i == 0 then x % 2 == 1 else TestBit(x / 2, i - 1)
  }

  /** x with bit i made v: `x | m` and `x & ~m` for m = 1 << i. */
  function PutBit(x: nat, i: nat, v: bool): nat {
    if i == 0 then x / 2 * 2 + (if v then 1 else 0) else PutBit(x / 2, i - 1, v) * 2 + x % 2
  }

  lemma {:induction false} TestPut(x: nat, i: nat, v: bool, j: nat)
    ensures TestBit(PutBit(x, i, v), j) == if i == j then v else TestBit(x, j)
  {
    if i > 0 {
      assert PutBit(x, i, v) / 2 == PutBit(x / 2, i - 1, v);
      if j > 0 {
        TestPut(x / 2, i - 1, v, j - 1);
      }
    } else {
      assert PutBit(x, i, v) / 2 == x / 2;
    }
  }

  function Pow2(n: nat): nat {
    if n == 0 then 1 else 2 * Pow2(n - 1)
  }

  lemma {:induction false} PutBound(x: nat, i: nat, v: bool, n: nat)
    requires x < Pow2(n) && i < n
    ensures PutBit(x, i, v) < Pow2(n)
  {
    if i > 0 {
      PutBound(x / 2, i - 1, v, n - 1);
    }
  }

  // ---------- Bits of the disk ----------

  /** Is block b marked in use? */
  predicate Used(sb: Super, d: Disk, b: nat) {
    sb.bmapstart + b / BPB < |d| && TestBit(d[sb.bmapstart + b / BPB][b % BPB / 8], b % BPB % 8)
  }

  /** The free blocks. */
  ghost function FreeSet(sb: Super, d: Disk): set<nat> {
    set b | 0 <= b < sb.size && !Used(sb, d, b)
  }

  /** A bitmap block with bit bi made v. */
  function PutBlock(data: Block, bi: nat, v: bool): Block
    requires bi < BPB
  {
    PutByte(data[bi / 8], bi % 8, v);
    data[bi / 8 := PutBit(data[bi / 8], bi % 8, v)]
  }

  lemma PutByte(x: Byte, i: nat, v: bool)
    requires i < 8
    ensures PutBit(x, i, v) < 256
  {
    assert Pow2(8) == 256;
    PutBound(x, i, v, 8);
  }

  function Mark(sb: Super, d: Disk, b: nat, v: bool): Disk
    requires sb.bmapstart + b / BPB < |d|
  {
    d[sb.bmapstart + b / BPB := PutBlock(d[sb.bmapstart + b / BPB], b % BPB, v)]
  }

  lemma SameBit(b: nat, c: nat)
    requires b / BPB == c / BPB && b % BPB / 8 == c % BPB / 8 && b % BPB % 8 == c % BPB % 8
    ensures b == c
  {
    assert b % BPB == c % BPB;
  }

  /** Marking a block changes that bit and no other. */
  lemma UsedMark(sb: Super, d: Disk, b: nat, v: bool, c: nat)
    requires sb.bmapstart + b / BPB < |d| && sb.bmapstart + c / BPB < |d|
    ensures Used(sb, Mark(sb, d, b, v), c) == if c == b then v else Used(sb, d, c)
  {
    if b / BPB == c / BPB && b % BPB / 8 == c % BPB / 8 {
      TestPut(d[sb.bmapstart + b / BPB][b % BPB / 8], b % BPB % 8, v, c % BPB % 8);
      if b % BPB % 8 == c % BPB % 8 {
        SameBit(b, c);
      }
    }
  }

  /** Writing outside the bitmap changes no bit. */
  lemma UsedElsewhere(sb: Super, d: Disk, i: nat, data: Block, c: nat)
    requires i < |d| && sb.bmapstart + c / BPB < |d| && i != sb.bmapstart + c / BPB
    ensures Used(sb, d[i := data], c) == Used(sb, d, c)
  {
  }

  /** Every block number has its bit inside the bitmap area. */
  lemma BitPlace(sb: Super, d: Disk, b: nat)
    requires Good(sb, d) && b < sb.size
    ensures sb.bmapstart <= sb.bmapstart + b / BPB < sb.datastart
    ensures sb.bmapstart + b / BPB < |d|
  {
    assert b / BPB <= sb.size / BPB;
  }

  /** balloc's result: marked in use and zeroed. */
  function Allocated(sb: Super, d: Disk, b: nat): Disk
    requires sb.bmapstart + b / BPB < |d| && b < |d|
  {
    Mark(sb, d, b, true)[b := ZeroBlock()]
  }

  /** balloc takes exactly one block out of the free set. */
  lemma AllocatedFree(sb: Super, d: Disk, b: nat)
    requires Good(sb, d) && sb.datastart <= b < sb.size && !Used(sb, d, b)
    ensures sb.bmapstart + b / BPB < |d|
    ensures FreeSet(sb, Allocated(sb, d, b)) == FreeSet(sb, d) - {b} && |FreeSet(sb, Allocated(sb, d, b))| == |FreeSet(sb, d)| - 1
  {
    BitPlace(sb, d, b);
    forall c | 0 <= c < sb.size
      ensures Used(sb, Allocated(sb, d, b), c) == (c == b || Used(sb, d, c))
    {
      BitPlace(sb, d, c);
      UsedMark(sb, d, b, true, c);
      UsedElsewhere(sb, Mark(sb, d, b, true), b, ZeroBlock(), c);
    }
  }

  /** Writing outside the bitmap frees and takes nothing. */
  lemma StoreFree(sb: Super, d: Disk, c: nat, data: Block)
    requires Good(sb, d) && c < |d| && (c < sb.bmapstart || sb.datastart <= c)
    ensures FreeSet(sb, d[c := data]) == FreeSet(sb, d)
  {
    var e: Disk := d[c := data];
    forall b: int | 0 <= b < sb.size
      ensures Used(sb, e, b) <==> Used(sb, d, b)
    {
      BitPlace(sb, d, b);
      UsedElsewhere(sb, d, c, data, b);
    }
    assert FreeSet(sb, e) == FreeSet(sb, d);
  }

  // ---------- The super block ----------

  /** readsb; the data area starts where mkfs ends the bitmap. */
  function ReadSuper(d: Disk): Super
    requires |d| >= 2
  {
    var size, bmap := GetWord(d[1], 0), GetWord(d[1], 6);
    Super(size, GetWord(d[1], 2), GetWord(d[1], 5), bmap, bmap + size / BPB + 1)
  }

  // mkfs
  const FSSIZE: nat := 1000
  const NINODES: nat := 200
  /** Inodes per block. */
  const IPB: nat := 8

  /** The blocks before the data: boot, super, log, inodes and bitmap. */
  function Meta(size: nat, ninodes: nat, nlog: nat): nat {
    2 + nlog + (ninodes / IPB + 1) + (size / BPB + 1)
  }

  /** Words w stored from word j of a block on. */
  function PutWords(b: Block, j: nat, w: seq<nat>): Block
    requires j + |w| <= WORDS && forall i :: 0 <= i < |w| ==> w[i] < UINT
  {
    if w == [] then b else SetWord(PutWords(b, j, w[..|w| - 1]), j + |w| - 1, w[|w| - 1])
  }

  lemma {:induction false} PutWordsAt(b: Block, j: nat, w: seq<nat>, k: nat)
    requires j + |w| <= WORDS && (forall i :: 0 <= i < |w| ==> w[i] < UINT) && k < WORDS
    ensures GetWord(PutWords(b, j, w), k) == if j <= k < j + |w| then w[k - j] else GetWord(b, k)
    decreases |w|
  {
    hide GetWord, SetWord;
    if w != [] {
      var rest := w[..|w| - 1];
      PutWordsAt(b, j, rest, k);
      GetSetWord(PutWords(b, j, rest), j + |w| - 1, w[|w| - 1], k);
    }
  }

  /** Block 1 as mkfs writes it: size, data blocks, inodes, log blocks, and the first block of log, inodes and bitmap. */
  function MkfsSuper(size: nat, ninodes: nat, nlog: nat): Block
    requires ninodes < UINT && Meta(size, ninodes, nlog) <= size < UINT
  {
    PutWords(ZeroBlock(), 0,
             [size, size - Meta(size, ninodes, nlog), ninodes, nlog, 2, 2 + nlog, 2 + nlog + ninodes / IPB + 1])
  }

  /** The kernel reads the layout that mkfs wrote, and its data area is the last nblocks blocks. */
  lemma SuperRoundTrip(d: Disk, size: nat, ninodes: nat, nlog: nat)
    requires ninodes < UINT && Meta(size, ninodes, nlog) <= size < UINT
    requires size <= |d| <= UINT && d[1] == MkfsSuper(size, ninodes, nlog)
    ensures var sb := ReadSuper(d);
            && sb.size == size && sb.ninodes == ninodes && sb.inodestart == 2 + nlog
            && sb.bmapstart == sb.inodestart + ninodes / IPB + 1
            && sb.datastart == Meta(size, ninodes, nlog) == size - GetWord(d[1], 1)
            && GetWord(d[1], 3) == nlog && GetWord(d[1], 4) == 2
            && Good(sb, d)
  {
    hide GetWord, PutWords, ZeroBlock;
    var w := [size, size - Meta(size, ninodes, nlog), ninodes, nlog, 2, 2 + nlog, 2 + nlog + ninodes / IPB + 1];
    forall k | 0 <= k < 7
      ensures GetWord(d[1], k) == w[k]
    {
      PutWordsAt(ZeroBlock(), 0, w, k);
    }
  }

  /** With the constants of the repository: inodes from block 32, the bitmap in block 58, data from block 59. */
  lemma MkfsLayout(d: Disk)
    requires FSSIZE <= |d| <= UINT && d[1] == MkfsSuper(FSSIZE, NINODES, 30)
    ensures ReadSuper(d) == Super(1000, 200, 32, 58, 59)
  {
    hide GetWord, PutWords;
    SuperRoundTrip(d, FSSIZE, NINODES, 30);
  }
}
