/**
 Disk blocks as BSIZE bytes, with the little-endian words that the kernel
 overlays on them (the log header, indirect blocks and directory entries).
 */
module Blocks {

  const BSIZE: nat := 512
  const WORDS: nat := 128
  const UINT: nat := 0x1_0000_0000

  type Byte = x: int | 0 <= x < 256
  type Block = b: seq<Byte> | |b| == BSIZE witness seq(BSIZE, _ => 0)

  type Disk = seq<Block>

  /** Every byte zero, as left by bzero. */
  function ZeroBlock(): Block {
    seq(BSIZE, _ => 0)
  }

  /** Word j of a block read through a `uint*`. */
  function GetWord(b: Block, j: nat): nat
    requires j < WORDS
  {
    var b0: int, b1: int, b2: int, b3: int := b[4 * j], b[4 * j + 1], b[4 * j + 2], b[4 * j + 3];
    b0 + 0x100 * b1 + 0x1_0000 * b2 + 0x100_0000 * b3
  }

  /** Word j of a block stored through a `uint*`. */
  function SetWord(b: Block, j: nat, w: nat): Block
    requires j < WORDS && w < UINT
  {
    b[4 * j := w % 0x100][4 * j + 1 := w / 0x100 % 0x100][4 * j + 2 := w / 0x1_0000 % 0x100][4 * j + 3 := w / 0x100_0000]
  }

  lemma BytesOfWord(w: nat)
    requires w < UINT
    ensures w % 0x100 + 0x100 * (w / 0x100 % 0x100) + 0x1_0000 * (w / 0x1_0000 % 0x100) + 0x100_0000 * (w / 0x100_0000) == w
  {
    assert w / 0x1_0000 == (w / 0x100) / 0x100;
    assert w / 0x100_0000 == (w / 0x1_0000) / 0x100;
  }

  /** A stored word reads back, and the words around it are untouched. */
  lemma GetSetWord(b: Block, j: nat, w: nat, k: nat)
    requires j < WORDS && k < WORDS && w < UINT
    ensures GetWord(SetWord(b, j, w), k) == if k == j then w else GetWord(b, k)
  {
    BytesOfWord(w);
  }

  lemma ZeroWord(j: nat)
    requires j < WORDS
    ensures GetWord(ZeroBlock(), j) == 0
  {
  }
}
