/** The bytes of inode blocks and of bitmap blocks: what `iupdate` writes and `ilock` reads back, and the flags that
`balloc` and `bfree` keep, in blocks of 512 bytes. */
module Dinodes {
  import opened Blocks
  import opened Ownership
  import Bitmap

  /** The words of an inode on the disk: two for its four short fields, one for its size, and its addresses. */
  const DINODE_WORDS := 16

  // ----- inodes

  const SHORT_RANGE := 0x1_0000

  /** A field of type short is signed. */
  function Short(w: nat): int {
    if w < 0x8000 then w else w - SHORT_RANGE
  }

  predicate IsShort(x: int) {
    -0x8000 <= x < 0x8000
  }

  function ShortBits(x: int): (w: nat)
    requires IsShort(x)
    ensures w < SHORT_RANGE && Short(w) == x
  {
    if x < 0 then x + SHORT_RANGE else x
  }

  /** Each field is in the range of its C type. */
  predicate Fits(din: Dinode) {
    && IsShort(din.typ) && IsShort(din.major) && IsShort(din.minor) && IsShort(din.nlink) && din.size < WORD_RANGE
    && forall k: nat :: k <= INDIRECT ==> din.addrs[k] < WORD_RANGE
  }

  /** Word `q` of inode `j` of a block. */
  function InodeWord(b: Block, j: nat, q: nat): (w: nat)
    requires j < IPB && q < DINODE_WORDS
    ensures w < WORD_RANGE
  {
    WordAt(b, DINODE_WORDS * j + q)
  }

  /** Inode `j` of a block, as `ilock` copies it. */
  function DinodeAt(b: Block, j: nat): Dinode
    requires j < IPB
  {
    Dinode(Short(InodeWord(b, j, 0) % SHORT_RANGE), Short(InodeWord(b, j, 0) / SHORT_RANGE),
           Short(InodeWord(b, j, 1) % SHORT_RANGE), Short(InodeWord(b, j, 1) / SHORT_RANGE), InodeWord(b, j, 2),
           AddrsAt(b, j))
  }

  function AddrsAt(b: Block, j: nat): (a: Addrs)
    requires j < IPB
    ensures forall k: nat :: k <= INDIRECT ==> a[k] == InodeWord(b, j, k + 3)
  {
    var a: seq<nat> := seq(INDIRECT + 1, k requires 0 <= k <= INDIRECT => InodeWord(b, j, k + 3));
    a
  }

  function DinodeWord(din: Dinode, k: nat): (w: nat)
    requires Fits(din) && k < DINODE_WORDS
    ensures w < WORD_RANGE
  {
    if k == 0 then TwoShorts(din.typ, din.major)
    else if k == 1 then TwoShorts(din.minor, din.nlink)
    else if k == 2 then din.size
    else din.addrs[k - 3]
  }

  function TwoShorts(x: int, y: int): (w: nat)
    requires IsShort(x) && IsShort(y)
    ensures w < WORD_RANGE && Short(w % SHORT_RANGE) == x && Short(w / SHORT_RANGE) == y
  {
    var w := ShortBits(x) + SHORT_RANGE * ShortBits(y);
    assert w % SHORT_RANGE == ShortBits(x) && w / SHORT_RANGE == ShortBits(y);
    w
  }

  /** The first `n` words of inode `j` of a block are written. */
  function PutWords(b: Block, j: nat, din: Dinode, n: nat): Block
    requires j < IPB && Fits(din) && n <= DINODE_WORDS
  {
    if n == 0 then b else SetWord(PutWords(b, j, din, n - 1), DINODE_WORDS * j + n - 1, DinodeWord(din, n - 1))
  }

  /** What `iupdate` writes. */
  function PutDinode(b: Block, j: nat, din: Dinode): Block
    requires j < IPB && Fits(din)
  {
    PutWords(b, j, din, DINODE_WORDS)
  }

  lemma {:induction false} WordAfterPut(b: Block, j: nat, din: Dinode, n: nat, q: nat)
    requires j < IPB && Fits(din) && n <= DINODE_WORDS && q < NWORDS
    ensures WordAt(PutWords(b, j, din, n), q)
         == var w := DINODE_WORDS * j; if w <= q < w + n then DinodeWord(din, q - w) else WordAt(b, q)
  {
    if n > 0 {
      WordAfterPut(b, j, din, n - 1, q);
      WordAfterSet(PutWords(b, j, din, n - 1), DINODE_WORDS * j + n - 1, DinodeWord(din, n - 1), q);
    }
  }

  /** `ilock` reads what `iupdate` wrote, and the other inodes of the block stay. */
  lemma DinodeRoundTrip(b: Block, j: nat, din: Dinode, k: nat)
    requires j < IPB && k < IPB && Fits(din)
    ensures DinodeAt(PutDinode(b, j, din), k) == if k == j then din else DinodeAt(b, k)
  {
    var c := PutDinode(b, j, din);
    forall q: nat | q < DINODE_WORDS
      ensures InodeWord(c, k, q) == if k == j then DinodeWord(din, q) else InodeWord(b, k, q)
    {
      WordAfterPut(b, j, din, DINODE_WORDS, DINODE_WORDS * k + q);
    }
    hide PutDinode, InodeWord;
    if k == j {
      assert DinodeAt(c, k).addrs == din.addrs;
    } else {
      assert DinodeAt(c, k).addrs == DinodeAt(b, k).addrs;
    }
  }

  /** The layout of an inode on the disk: its fields one after the other, little-endian. */
  lemma DinodeBytes(b: Block, j: nat, din: Dinode)
    requires j < 8 && Fits(din)
    ensures var c, o := PutDinode(b, j, din), 64 * j;
            && ShortIs(c, o, din.typ) && ShortIs(c, o + 2, din.major) && ShortIs(c, o + 4, din.minor)
            && ShortIs(c, o + 6, din.nlink) && WordIs(c, o + 8, din.size)
            && forall k: nat :: k <= 12 ==> WordIs(c, o + 12 + 4 * k, din.addrs[k])
  {
    var c := PutDinode(b, j, din);
    hide PutDinode, TwoShorts, WordAt, ShortIs, WordIs;
    PutWord(b, j, din, 0);
    PutWord(b, j, din, 1);
    PutWord(b, j, din, 2);
    TwoHalves(c, 16 * j, din.typ, din.major);
    TwoHalves(c, 16 * j + 1, din.minor, din.nlink);
    WordBytes(c, 16 * j + 2);
    forall k: nat | k <= 12
      ensures WordIs(c, 64 * j + 12 + 4 * k, din.addrs[k])
    {
      PutWord(b, j, din, k + 3);
      WordBytes(c, 16 * j + 3 + k);
    }
  }

  lemma PutWord(b: Block, j: nat, din: Dinode, q: nat)
    requires j < 8 && Fits(din) && q < 16
    ensures WordAt(PutDinode(b, j, din), 16 * j + q) == DinodeWord(din, q)
  {
    WordAfterPut(b, j, din, 16, 16 * j + q);
  }

  /** The bytes from `at` on are those of a short. */
  predicate ShortIs(c: Block, at: nat, x: int) {
    at + 2 <= BSIZE && Short(c[at] as int + 0x100 * c[at + 1] as int) == x
  }

  lemma TwoHalves(c: Block, q: nat, x: int, y: int)
    requires q < NWORDS && IsShort(x) && IsShort(y) && WordAt(c, q) == TwoShorts(x, y)
    ensures ShortIs(c, 4 * q, x) && ShortIs(c, 4 * q + 2, y)
  {
    var lo, hi := c[4 * q] as int + 0x100 * c[4 * q + 1] as int, c[4 * q + 2] as int + 0x100 * c[4 * q + 3] as int;
    assert WordAt(c, q) == lo + 0x1_0000 * hi;
    assert lo == WordAt(c, q) % 0x1_0000 && hi == WordAt(c, q) / 0x1_0000;
  }

  // ----- flags

  /** The flag of block `c` of those that a bitmap block covers. */
  predicate FlagAt(b: Block, c: nat)
    requires c < BPB
  {
    Bitmap.Has(b[c / 8] as bv8, c % 8)
  }

  /** The byte of eight flags of the map from `base` on. */
  function FlagByte(bitmap: seq<bool>, base: nat, k: nat): bv8
    requires k <= 8
  {
    if k == 0 then 0
    else if base + k - 1 < |bitmap| && bitmap[base + k - 1] then Bitmap.With(FlagByte(bitmap, base, k - 1), k - 1)
    else FlagByte(bitmap, base, k - 1)
  }

  lemma {:induction false} FlagsOfByte(bitmap: seq<bool>, base: nat, k: nat, j: nat)
    requires k <= 8 && j < 8
    ensures Bitmap.Has(FlagByte(bitmap, base, k), j) <==> j < k && base + j < |bitmap| && bitmap[base + j]
  {
    if k == 0 {
      Bitmap.NoFlags(j);
    } else {
      FlagsOfByte(bitmap, base, k - 1, j);
      Bitmap.MasksAreApart(FlagByte(bitmap, base, k - 1), k - 1, j);
    }
  }

  /** The bitmap block for the flags from `base` on. */
  function FlagBlock(bitmap: seq<bool>, base: nat): Block {
    seq(BSIZE, q requires 0 <= q < BSIZE => FlagByte(bitmap, base + 8 * q, 8) as Byte)
  }

  lemma FlagsOfBlock(bitmap: seq<bool>, base: nat, c: nat)
    requires c < BPB && base + c < |bitmap|
    ensures FlagAt(FlagBlock(bitmap, base), c) <==> bitmap[base + c]
  {
    FlagsOfByte(bitmap, base + 8 * (c / 8), 8, c % 8);
    Bitmap.ByteAndBack(FlagByte(bitmap, base + 8 * (c / 8), 8));
  }
}
