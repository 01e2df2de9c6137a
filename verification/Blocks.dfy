/** Disk blocks as bytes, and the 32-bit words the kernel reads and writes inside them. */
module Blocks {

  const BSIZE := 512
  const NWORDS := 128
  const WORD_RANGE := 0x1_0000_0000

  /** Inodes in a block of inodes, and flags in a block of the bitmap. */
  const IPB := 8
  const BPB := 8 * BSIZE

  type Byte = b: int | 0 <= b < 256

  type Block = s: seq<Byte> | |s| == BSIZE witness seq(BSIZE, _ => 0)

  const ZERO_BLOCK: Block := ZeroBlock()

  function ZeroBlock(): (b: Block)
    ensures forall i: nat :: i < BSIZE ==> b[i] == 0
  {
    seq(BSIZE, _ => 0)
  }

  datatype Option<+T> = None | Some(value: T)

  /** The little-endian word number `j` of a block. */
  function WordAt(b: Block, j: nat): (w: nat)
    requires j < NWORDS
    ensures w < WORD_RANGE
  {
    b[4*j] as int + 0x100 * b[4*j+1] as int + 0x1_0000 * b[4*j+2] as int + 0x100_0000 * b[4*j+3] as int
  }

  function SetWord(b: Block, j: nat, w: nat): Block
    requires j < NWORDS && w < WORD_RANGE
  {
    b[4*j := w % 0x100][4*j+1 := w / 0x100 % 0x100][4*j+2 := w / 0x1_0000 % 0x100][4*j+3 := w / 0x100_0000]
  }

  /** The four bytes from `at` on are those of a word, the least first. */
  predicate WordIs(b: Block, at: nat, w: int) {
    && at + 4 <= BSIZE
    && b[at] as int + 0x100 * b[at + 1] as int + 0x1_0000 * b[at + 2] as int + 0x100_0000 * b[at + 3] as int == w
  }

  lemma WordBytes(b: Block, j: nat)
    requires j < NWORDS
    ensures WordIs(b, 4 * j, WordAt(b, j))
  {
  }

  lemma FourBytes(w: nat)
    requires w < WORD_RANGE
    ensures w == w % 0x100 + 0x100 * (w / 0x100 % 0x100)
              + 0x1_0000 * (w / 0x1_0000 % 0x100) + 0x100_0000 * (w / 0x100_0000)
  {
    assert w == w % 0x100 + 0x100 * (w / 0x100);
    assert w / 0x100 == w / 0x100 % 0x100 + 0x100 * (w / 0x1_0000);
    assert w / 0x1_0000 == w / 0x1_0000 % 0x100 + 0x100 * (w / 0x100_0000);
  }

  lemma WordAfterSet(b: Block, j: nat, w: nat, k: nat)
    requires j < NWORDS && k < NWORDS && w < WORD_RANGE
    ensures WordAt(SetWord(b, j, w), k) == if k == j then w else WordAt(b, k)
  {
    FourBytes(w);
  }

  lemma ZeroBlockWords(j: nat)
    requires j < NWORDS
    ensures WordAt(ZERO_BLOCK, j) == 0
  {
  }
}
