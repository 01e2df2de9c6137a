/** What block mapping and writing do to files seen as flat byte sequences. */
module Files {
  import opened Blocks
  import opened Ownership

  /** `e` is `d` with empty slots of inode `i` filled: no named slot, no byte and no other inode changed. */
  ghost predicate Extends(d: Disk, e: Disk, i: nat) {
    && Shape(d) && Shape(e) && e.nmeta == d.nmeta && |e.blocks| == |d.blocks| && |e.inodes| == |d.inodes| &&
         i < |d.inodes|
    && e.inodes == d.inodes[i := d.inodes[i].(addrs := e.inodes[i].addrs)]
    && (forall t: Slot :: IsSlot(d, t) && (t.inum != i || Ref(d, t) != 0) ==> Ref(e, t) == Ref(d, t))
    && (forall j: nat :: j < |d.inodes| ==> SameBytes(d, e, j))
  }

  lemma ExtendsItself(d: Disk, i: nat)
    requires Shape(d) && i < |d.inodes|
    ensures Extends(d, d, i)
  {
  }

  lemma ExtendsTwice(d: Disk, e: Disk, f: Disk, i: nat)
    requires Extends(d, e, i) && Extends(e, f, i)
    ensures Extends(d, f, i)
  {
    hide Ref, FileByte;
    forall j: nat | j < |d.inodes|
      ensures SameBytes(d, f, j)
    {
      SameBytesTwice(d, e, f, j);
    }
  }

  lemma ExtendsSameBytes(d: Disk, e: Disk, i: nat)
    requires Extends(d, e, i)
    ensures SameBytes(d, e, i)
  {
  }

  /** The slots other than `s` hold what they held. */
  ghost predicate OnlySlot(d: Disk, e: Disk, s: Slot) {
    |e.inodes| == |d.inodes| && forall t: Slot :: IsSlot(d, t) && t != s ==> Ref(e, t) == Ref(d, t)
  }

  lemma FillExtends(d: Disk, owner: Owner, s: Slot, b: nat)
    requires Owned(d, owner) && Fillable(d, owner, s, b)
    requires s.k > INDIRECT ==> d.inodes[s.inum].addrs[INDIRECT] < |d.blocks|
    ensures Extends(d, Filled(d, s, b), s.inum) && Ref(Filled(d, s, b), s) == b && OnlySlot(d, Filled(d, s, b), s)
    ensures Owned(Filled(d, s, b), owner[b := s])
  {
    var e := Filled(d, s, b);
    FillShape(d, s, b);
    FillKeepsOwned(d, owner, s, b);
    RefAfterFill(d, owner, s, b, s);
    forall t: Slot | IsSlot(d, t)
      ensures t != s ==> Ref(e, t) == Ref(d, t)
    {
      RefAfterFill(d, owner, s, b, t);
    }
    assert forall t: Slot :: IsSlot(d, t) && (t.inum != s.inum || Ref(d, t) != 0) ==> t != s;
    forall j: nat | j < |d.inodes|
      ensures SameBytes(d, e, j)
    {
      FillKeepsBytes(d, owner, s, b, j);
    }
  }

  // ----- a file as a flat sequence

  /** The bytes of a file from 0 up to `n`. */
  ghost function Bytes(d: Disk, i: nat, n: nat): (s: seq<Byte>)
    requires i < |d.inodes| && n <= LIMIT
    ensures |s| == n && forall p: nat :: p < n ==> s[p] == FileByte(d, i, p)
  {
    seq(n, p requires 0 <= p < n => FileByte(d, i, p))
  }

  ghost function Contents(d: Disk, i: nat): seq<Byte>
    requires i < |d.inodes| && d.inodes[i].size <= LIMIT
  {
    Bytes(d, i, d.inodes[i].size)
  }

  /** `old` with `src` laid over it from `off` on, the file grown if need be. */
  function Spliced(file: seq<Byte>, off: nat, src: seq<Byte>): seq<Byte>
    requires off <= |file|
  {
    file[..off] + src + if off + |src| < |file| then file[off + |src|..] else []
  }

  /** From `d` to `e` exactly the bytes [off, off + |src|) of file `i` were replaced, by `src`. */
  ghost predicate Wrote(d: Disk, e: Disk, i: nat, off: nat, src: seq<Byte>) {
    && |e.inodes| == |d.inodes| && i < |d.inodes|
    && (forall p: nat :: p < LIMIT ==> ByteWritten(d, e, i, off, src, p))
    && (forall j: nat :: j < |d.inodes| && j != i ==> SameBytes(d, e, j) && e.inodes[j] == d.inodes[j])
  }

  ghost predicate ByteWritten(d: Disk, e: Disk, i: nat, off: nat, src: seq<Byte>, p: nat)
    requires i < |d.inodes| && i < |e.inodes| && p < LIMIT
  {
    FileByte(e, i, p) == if off <= p < off + |src| then src[p - off] else FileByte(d, i, p)
  }

  /** Seen as flat sequences, that is a splice; bytes past the old end that the write does not reach stay unseen. */
  lemma WroteIsSplice(d: Disk, e: Disk, i: nat, off: nat, src: seq<Byte>)
    requires Wrote(d, e, i, off, src)
    requires off <= d.inodes[i].size <= LIMIT && off + |src| <= LIMIT
    requires e.inodes[i].size == if off + |src| > d.inodes[i].size then off + |src| else d.inodes[i].size
    ensures Contents(e, i) == Spliced(Contents(d, i), off, src)
  {
    hide FileByte;
    var was, now := Contents(d, i), Contents(e, i);
    var spliced := Spliced(was, off, src);
    assert |now| == |spliced|;
    forall p: nat | p < |now|
      ensures now[p] == spliced[p]
    {
      assert ByteWritten(d, e, i, off, src, p);
      if p < off {
        assert spliced[p] == was[p];
      } else if p < off + |src| {
        assert spliced[p] == src[p - off];
      } else {
        assert spliced[p] == was[p];
      }
    }
  }

  lemma WroteShape(d: Disk, e: Disk, i: nat, off: nat, src: seq<Byte>)
    requires Wrote(d, e, i, off, src)
    ensures |e.inodes| == |d.inodes| && i < |d.inodes|
  {
  }

  lemma ContentsLength(d: Disk, i: nat)
    requires i < |d.inodes| && d.inodes[i].size <= LIMIT
    ensures |Contents(d, i)| == d.inodes[i].size
  {
  }

  /** The block `blk` with `src` laid over it from `o` on. */
  function Patched(blk: Block, o: nat, src: seq<Byte>): Block
    requires o + |src| <= BSIZE
  {
    blk[..o] + src + blk[o + |src|..]
  }

  /** One turn of the write loop: the block `bn` that holds byte `off + tot` at `o` is patched with the next `m`
    bytes. */
  lemma WriteTurn(d: Disk, cur: Disk, mid: Disk, owner: Owner, i: nat, off: nat, src: seq<Byte>, tot: nat, m: nat,
                  bn: nat, o: nat)
    requires tot + m <= |src| && Wrote(d, cur, i, off, src[..tot]) && Extends(cur, mid, i) && Owned(mid, owner)
    requires off + |src| <= LIMIT && bn < MAXFILE && off + tot == BSIZE * bn + o && o + m <= BSIZE && o < BSIZE
    requires HasBlock(mid, i, bn)
    ensures var b := Ref(mid, Slot(i, SlotOf(bn)));
      && b < |mid.blocks|
      && var e := mid.(blocks := mid.blocks[b := Patched(mid.blocks[b], o, src[tot..tot+m])]);
      && Wrote(d, e, i, off, src[..tot+m]) && Owned(e, owner)
      && (forall t: Slot :: IsSlot(mid, t) ==> Ref(e, t) == Ref(mid, t))
  {
    var s := Slot(i, SlotOf(bn));
    var b := Ref(mid, s);
    assert SlotOk(mid, owner, s);
    var blk := Patched(mid.blocks[b], o, src[tot..tot+m]);
    var e := mid.(blocks := mid.blocks[b := blk]);
    WriteKeepsOwned(mid, owner, b, blk);
    TurnKeepsOthers(d, cur, mid, owner, i, off, src[..tot], s, blk);
    var part := src[..tot+m];
    hide Ref, FileByte, Owned, Extends;
    forall p: nat | p < LIMIT
      ensures ByteWritten(d, e, i, off, part, p)
    {
      ByteTurn(d, cur, mid, owner, i, off, src, tot, m, bn, o, p);
    }
  }

  lemma TurnKeepsOthers(d: Disk, cur: Disk, mid: Disk, owner: Owner, i: nat, off: nat, src: seq<Byte>, s: Slot,
                        blk: Block)
    requires Wrote(d, cur, i, off, src) && Extends(cur, mid, i) && Owned(mid, owner)
    requires IsSlot(mid, s) && s.inum == i && s.k != INDIRECT && Ref(mid, s) != 0 && Ref(mid, s) < |mid.blocks|
    ensures var e := mid.(blocks := mid.blocks[Ref(mid, s) := blk]);
      && (forall t: Slot :: IsSlot(mid, t) ==> Ref(e, t) == Ref(mid, t))
      && (forall j: nat :: j < |d.inodes| && j != i ==> SameBytes(d, e, j) && e.inodes[j] == d.inodes[j])
  {
    var b := Ref(mid, s);
    var e := mid.(blocks := mid.blocks[b := blk]);
    hide Ref, FileByte;
    assert SlotOk(mid, owner, s);
    forall t: Slot | IsSlot(mid, t)
      ensures Ref(e, t) == Ref(mid, t)
    {
      RefAfterWrite(mid, owner, b, blk, t);
    }
    forall j: nat | j < |d.inodes| && j != i
      ensures SameBytes(d, e, j)
    {
      OthersAfterWrite(mid, owner, s, blk, j);
      SameBytesTwice(d, cur, mid, j);
      SameBytesTwice(d, mid, e, j);
    }
  }

  lemma SameBytesTwice(d: Disk, e: Disk, f: Disk, j: nat)
    requires j < |d.inodes| && j < |e.inodes| && j < |f.inodes| && SameBytes(d, e, j) && SameBytes(e, f, j)
    ensures SameBytes(d, f, j)
  {
    hide FileByte;
  }

  lemma OthersAfterWrite(d: Disk, owner: Owner, s: Slot, blk: Block, j: nat)
    requires Owned(d, owner) && IsSlot(d, s) && s.k != INDIRECT && Ref(d, s) != 0 && Ref(d, s) < |d.blocks|
    requires j < |d.inodes| && j != s.inum
    ensures SameBytes(d, d.(blocks := d.blocks[Ref(d, s) := blk]), j)
  {
    hide FileByte, Ref;
    var e := d.(blocks := d.blocks[Ref(d, s) := blk]);
    forall p: nat | p < LIMIT
      ensures FileByte(e, j, p) == FileByte(d, j, p)
    {
      ByteAfterWrite(d, owner, s, blk, j, p);
    }
  }

  lemma ByteTurn(d: Disk, cur: Disk, mid: Disk, owner: Owner, i: nat, off: nat, src: seq<Byte>, tot: nat, m: nat,
                 bn: nat, o: nat, p: nat)
    requires tot + m <= |src| && Wrote(d, cur, i, off, src[..tot]) && Extends(cur, mid, i) && Owned(mid, owner)
    requires off + |src| <= LIMIT && bn < MAXFILE && off + tot == BSIZE * bn + o && o + m <= BSIZE && o < BSIZE
    requires HasBlock(mid, i, bn) && p < LIMIT
    ensures var b := Ref(mid, Slot(i, SlotOf(bn)));
      && b < |mid.blocks|
      && var e := mid.(blocks := mid.blocks[b := Patched(mid.blocks[b], o, src[tot..tot+m])]);
      ByteWritten(d, e, i, off, src[..tot+m], p)
  {
    var at := off + tot;
    var s := Slot(i, SlotOf(bn));
    var b := Ref(mid, s);
    assert SlotOk(mid, owner, s);
    var was: Block := mid.blocks[b];
    var blk := Patched(was, o, src[tot..tot+m]);
    ByteAfterWrite(mid, owner, s, blk, i, p);
    assert ByteWritten(d, cur, i, off, src[..tot], p);
    SameByteAt(cur, mid, i, p);
    var q := p % BSIZE;
    if p / BSIZE == bn {
      assert was[q] == FileByte(mid, i, p);
      hide Ref, Owned, Extends, Wrote, Patched, FileByte;
      assert q - o == p - at by { assert p == BSIZE * bn + q; }
      PatchedAt(was, o, src[tot..tot+m], q);
    } else {
      assert s.k != SlotOf(p / BSIZE);
      hide Ref, Owned, Extends, Wrote, Patched, FileByte;
      OutsideBlock(bn, o, m, p);
    }
  }

  lemma OutsideBlock(bn: nat, o: nat, m: nat, p: nat)
    requires o + m <= BSIZE && p / BSIZE != bn
    ensures !(BSIZE * bn + o <= p < BSIZE * bn + o + m)
  {
  }

  lemma PatchedAt(blk: Block, o: nat, src: seq<Byte>, q: nat)
    requires o + |src| <= BSIZE && q < BSIZE
    ensures Patched(blk, o, src)[q] == if o <= q < o + |src| then src[q - o] else blk[q]
  {
  }

  /** `dst` is what file `i` holds from `off` on. */
  ghost predicate Spells(d: Disk, i: nat, off: nat, dst: seq<Byte>)
    requires i < |d.inodes|
  {
    forall q: nat :: q < |dst| ==> Spelled(d, i, off, dst, q)
  }

  predicate Spelled(d: Disk, i: nat, off: nat, dst: seq<Byte>, q: nat)
    requires i < |d.inodes| && q < |dst|
  {
    off + q < LIMIT && dst[q] == FileByte(d, i, off + q)
  }

  /** Byte `x` after byte `at`, in the same block. */
  lemma ByteInBlock(d: Disk, owner: Owner, i: nat, at: nat, x: nat)
    requires i < |d.inodes| && Owned(d, owner) && at / BSIZE < MAXFILE && x < BSIZE - at % BSIZE
    requires HasBlock(d, i, at / BSIZE)
    ensures at + x < LIMIT
    ensures var b := Ref(d, Slot(i, SlotOf(at / BSIZE)));
      b < |d.blocks| && FileByte(d, i, at + x) == d.blocks[b][at % BSIZE + x]
  {
    hide Ref;
    assert SlotOk(d, owner, Slot(i, SlotOf(at / BSIZE)));
    assert (at + x) / BSIZE == at / BSIZE && (at + x) % BSIZE == at % BSIZE + x;
  }

  lemma SpellsNothing(d: Disk, i: nat, off: nat)
    requires i < |d.inodes|
    ensures Spells(d, i, off, [])
  {
  }

  /** What one turn of the read loop copies. */
  lemma PartSpells(d: Disk, mid: Disk, owner: Owner, i: nat, at: nat, m: nat)
    requires i < |d.inodes| && Extends(d, mid, i) && Owned(mid, owner)
    requires at / BSIZE < MAXFILE && 0 < m <= BSIZE - at % BSIZE
    requires HasBlock(mid, i, at / BSIZE)
    ensures var b := Ref(mid, Slot(i, SlotOf(at / BSIZE)));
      b < |mid.blocks| && Spells(d, i, at, mid.blocks[b][at % BSIZE..at % BSIZE + m])
  {
    var b := Ref(mid, Slot(i, SlotOf(at / BSIZE)));
    hide FileByte, Ref, SlotOf, Owned, Extends;
    var o := at % BSIZE;
    ByteInBlock(mid, owner, i, at, 0);
    var part: seq<Byte> := mid.blocks[b][o..o+m];
    forall x: nat | x < |part|
      ensures Spelled(d, i, at, part, x)
    {
      ByteInBlock(mid, owner, i, at, x);
      SameByteAt(d, mid, i, at + x);
    }
  }

  lemma SameByteAt(d: Disk, e: Disk, i: nat, p: nat)
    requires Extends(d, e, i) && p < LIMIT
    ensures FileByte(e, i, p) == FileByte(d, i, p)
  {
    hide FileByte, Ref;
    assert SameBytes(d, e, i);
  }

  lemma SpellsMore(d: Disk, e: Disk, i: nat, off: nat, dst: seq<Byte>, part: seq<Byte>)
    requires i < |d.inodes| && i < |e.inodes| && SameBytes(d, e, i)
    requires Spells(d, i, off, dst) && Spells(e, i, off + |dst|, part)
    ensures Spells(d, i, off, dst + part)
  {
    hide FileByte;
    var more := dst + part;
    forall q: nat | q < |more|
      ensures Spelled(d, i, off, more, q)
    {
      if q >= |dst| {
        var x: nat := q - |dst|;
        var p := off + |dst| + x;
        assert Spelled(e, i, off + |dst|, part, x);
        assert p == off + q && more[q] == part[x] == FileByte(e, i, p) == FileByte(d, i, p);
      } else {
        assert more[q] == dst[q] && Spelled(d, i, off, dst, q);
      }
    }
  }

  // ----- holes

  lemma SizeInLimit(d: Disk, i: nat)
    requires i < |d.inodes| && NoHoles(d, i)
    ensures d.inodes[i].size <= LIMIT
  {
  }

  lemma InsideHasBlock(d: Disk, i: nat, p: nat)
    requires i < |d.inodes| && NoHoles(d, i) && p < d.inodes[i].size
    ensures p / BSIZE < MAXFILE && HasBlock(d, i, p / BSIZE)
  {
    hide HasBlock;
  }

  /** Every block that meets [lo, hi) is there. */
  ghost predicate Backed(d: Disk, i: nat, lo: nat, hi: nat)
    requires i < |d.inodes|
  {
    lo < hi ==> forall bn: nat :: bn < MAXFILE && lo / BSIZE <= bn && bn * BSIZE < hi ==> HasBlock(d, i, bn)
  }

  /** A write that starts inside a hole-free file and is backed leaves it hole-free at its new size. */
  lemma BackedKeepsNoHoles(d: Disk, e: Disk, i: nat, off: nat, hi: nat)
    requires i < |d.inodes| && i < |e.inodes| && NoHoles(d, i) && off <= d.inodes[i].size && Backed(e, i, off, hi) &&
              hi <= LIMIT
    requires forall bn: nat :: bn < MAXFILE && HasBlock(d, i, bn) ==> HasBlock(e, i, bn)
    requires e.inodes[i].size == d.inodes[i].size || e.inodes[i].size == hi
    ensures NoHoles(e, i)
  {
    hide HasBlock;
    forall bn: nat | bn < MAXFILE && bn * BSIZE < e.inodes[i].size
      ensures HasBlock(e, i, bn)
    {
      if bn * BSIZE >= d.inodes[i].size {
        assert off / BSIZE <= bn;
      }
    }
  }

  // ----- how many blocks a write meets

  /** The number of blocks that meet [off, off + n). */
  function Span(off: nat, n: nat): nat {
    if n == 0 then 0 else (off + n - 1) / BSIZE - off / BSIZE + 1
  }

  /** Byte `p` starts a block. */
  predicate Edge(p: nat) {
    p % BSIZE == 0
  }

  /** The `n` bytes from `off` on are in one block, and there are some. */
  predicate InOneBlock(off: nat, n: nat) {
    0 < n <= BSIZE - off % BSIZE
  }

  /** The block that holds byte `at` of a file is there. */
  predicate BlockAt(d: Disk, i: nat, at: nat)
    requires i < |d.inodes|
  {
    at / BSIZE < MAXFILE && HasBlock(d, i, at / BSIZE)
  }

  /** A turn of the loop covers one more block. */
  lemma SpanTurn(off: nat, tot: nat, m: nat)
    requires 0 < m <= BSIZE - (off + tot) % BSIZE && (tot == 0 || Edge(off + tot))
    ensures Span(off, tot + m) == Span(off, tot) + 1
  {
    var at := off + tot;
    assert at / BSIZE == (at + m - 1) / BSIZE;
    if tot != 0 {
      assert (at - 1) / BSIZE == at / BSIZE - 1;
    }
  }

  /** A chunk of at most three blocks meets four blocks at most, and only when it starts inside a block. */
  lemma SpanOfChunk(off: nat, n: nat)
    requires n <= 3 * BSIZE
    ensures Span(off, n) <= if off % BSIZE == 0 then 3 else 4
  {
    if n != 0 {
      assert off == BSIZE * (off / BSIZE) + off % BSIZE;
      assert off + n - 1 == BSIZE * ((off + n - 1) / BSIZE) + (off + n - 1) % BSIZE;
    }
  }

  /** A chunk of at most three blocks logs at most ten blocks: data, indirect block, bitmap blocks, inode block. */
  lemma ChunkFitsInLog(off: nat, n: nat)
    requires n <= 3 * BSIZE
    ensures WriteCost(off, n) <= 10
  {
    SpanOfChunk(off, n);
  }

  /** The most blocks a write of [off, off + n) into a hole-free file logs. */
  function WriteCost(off: nat, n: nat): nat {
    2 * Span(off, n) + 3 - if n > 0 && off % BSIZE != 0 then 1 else 0
  }

  // ----- how many blocks a write needs

  /** How many of the blocks from `lo` up to `hi` of a file are missing. */
  function Missing(d: Disk, i: nat, lo: nat, hi: nat): nat
    requires i < |d.inodes| && hi <= MAXFILE
  {
    if hi <= lo then 0 else Missing(d, i, lo, hi - 1) + if HasBlock(d, i, hi - 1) then 0 else 1
  }

  /** How many have to be allocated for them, with the indirect block. */
  function NeedOver(d: Disk, i: nat, lo: nat, hi: nat): nat
    requires i < |d.inodes| && hi <= MAXFILE
  {
    Missing(d, i, lo, hi) + if lo < hi && hi > NDIRECT && d.inodes[i].addrs[INDIRECT] == 0 then 1 else 0
  }

  /** What a write of `n` bytes at `off` needs. */
  function WriteNeeds(d: Disk, i: nat, off: nat, n: nat): nat
    requires i < |d.inodes| && off + n <= LIMIT
  {
    NeedOver(d, i, off / BSIZE, off / BSIZE + Span(off, n))
  }

  /** From `d` to `e` file `i` got block `bn`, if it was missing, and no other. */
  ghost predicate OnlyBlock(d: Disk, e: Disk, i: nat, bn: nat) {
    && i < |d.inodes| && i < |e.inodes|
    && (forall c: nat :: c < MAXFILE ==> (HasBlock(e, i, c) <==> HasBlock(d, i, c) || c == bn))
    && (e.inodes[i].addrs[INDIRECT] != 0 <==> d.inodes[i].addrs[INDIRECT] != 0 || bn >= NDIRECT)
  }

  /** File `i` has the same blocks in both, the indirect one aside. */
  ghost predicate SameBlocks(d: Disk, e: Disk, i: nat) {
    && i < |d.inodes| && i < |e.inodes|
    && forall c: nat :: c < MAXFILE ==> (HasBlock(e, i, c) <==> HasBlock(d, i, c))
  }

  lemma SlotFilled(d: Disk, e: Disk, i: nat, k: nat)
    requires OnlySlot(d, e, Slot(i, k)) && i < |d.inodes| && k < NSLOTS && Ref(e, Slot(i, k)) != 0
    ensures k == INDIRECT ==> SameBlocks(d, e, i) && e.inodes[i].addrs[INDIRECT] != 0
    ensures k < INDIRECT ==> OnlyBlock(d, e, i, k)
    ensures k > INDIRECT ==>
              (d.inodes[i].addrs[INDIRECT] != 0 ==> OnlyBlock(d, e, i, k - 1))
  {
    forall c: nat | c < MAXFILE
      ensures SlotOf(c) != k ==> (HasBlock(e, i, c) <==> HasBlock(d, i, c))
      ensures SlotOf(c) == k ==> HasBlock(e, i, c)
    {
      assert IsSlot(d, Slot(i, SlotOf(c)));
    }
    assert IsSlot(d, Slot(i, INDIRECT));
  }

  lemma BlockThere(d: Disk, i: nat, bn: nat)
    requires i < |d.inodes| && bn < MAXFILE && HasBlock(d, i, bn)
    ensures OnlyBlock(d, d, i, bn)
  {
  }

  /** The blocks of a file and its indirect block are found by its slots alone. */
  lemma OnlyBlockThenKeeps(d: Disk, mid: Disk, e: Disk, i: nat, bn: nat)
    requires OnlyBlock(d, mid, i, bn) && |e.inodes| == |mid.inodes|
    requires forall t: Slot :: IsSlot(mid, t) ==> Ref(e, t) == Ref(mid, t)
    ensures OnlyBlock(d, e, i, bn)
  {
    forall c: nat | c < MAXFILE
      ensures HasBlock(e, i, c) <==> HasBlock(mid, i, c)
    {
      assert IsSlot(mid, Slot(i, SlotOf(c)));
    }
    assert IsSlot(mid, Slot(i, INDIRECT));
    assert Ref(e, Slot(i, INDIRECT)) == Ref(mid, Slot(i, INDIRECT));
  }

  /** From `d` to `e` file `i` got those of the blocks from `lo` up to `hi` that were missing, no others, and they came
  from the free blocks. */
  ghost predicate Backs(d: Disk, e: Disk, i: nat, lo: nat, hi: nat) {
    && i < |d.inodes| && i < |e.inodes| && lo <= hi <= MAXFILE
    && FreeCount(e.bitmap) == FreeCount(d.bitmap) - NeedOver(d, i, lo, hi)
    && (forall c: nat :: c < MAXFILE ==> (HasBlock(e, i, c) <==> HasBlock(d, i, c) || lo <= c < hi))
    && (e.inodes[i].addrs[INDIRECT] != 0 <==> d.inodes[i].addrs[INDIRECT] != 0 || (lo < hi && hi > NDIRECT))
  }

  /** So for the blocks that the `n` bytes from `off` on are in. */
  ghost predicate BacksBytes(d: Disk, e: Disk, i: nat, off: nat, n: nat) {
    Backs(d, e, i, off / BSIZE, off / BSIZE + Span(off, n))
  }

  lemma BacksNothing(d: Disk, i: nat, off: nat)
    requires i < |d.inodes| && off <= LIMIT
    ensures BacksBytes(d, d, i, off, 0)
  {
  }

  lemma OneBlockBacks(d: Disk, e: Disk, i: nat, bn: nat)
    requires OnlyBlock(d, e, i, bn) && bn < MAXFILE && FreeCount(e.bitmap) == FreeCount(d.bitmap) - Need(d, i, bn)
    ensures Backs(d, e, i, bn, bn + 1) && NeedOver(d, i, bn, bn + 1) == Need(d, i, bn)
  {
    hide HasBlock;
    assert Missing(d, i, bn, bn) == 0;
  }

  lemma {:induction false} MissingSplit(d: Disk, i: nat, lo: nat, mid: nat, hi: nat)
    requires i < |d.inodes| && lo <= mid <= hi <= MAXFILE
    ensures Missing(d, i, lo, hi) == Missing(d, i, lo, mid) + Missing(d, i, mid, hi)
    decreases hi
  {
    if mid < hi {
      MissingSplit(d, i, lo, mid, hi - 1);
    }
  }

  /** What was backed is not missing any more. */
  lemma {:induction false} MissingAfter(d: Disk, e: Disk, i: nat, lo: nat, from: nat, mid: nat, hi: nat)
    requires Backs(d, e, i, lo, mid) && lo <= from <= mid && from <= hi <= MAXFILE
    ensures Missing(e, i, from, hi) == Missing(d, i, mid, hi)
    decreases hi
  {
    hide HasBlock;
    if from < hi {
      MissingAfter(d, e, i, lo, from, mid, hi - 1);
    }
  }

  /** A write after a write that ended in the block where it starts, or just before. */
  lemma BacksTwice(d: Disk, e: Disk, f: Disk, i: nat, lo: nat, from: nat, mid: nat, hi: nat)
    requires Backs(d, e, i, lo, mid) && Backs(e, f, i, from, hi) && lo <= from <= mid <= hi
    ensures Backs(d, f, i, lo, hi)
  {
    NeedAfter(d, e, i, lo, from, mid, hi);
    hide HasBlock, NeedOver;
  }

  lemma NeedAfter(d: Disk, e: Disk, i: nat, lo: nat, from: nat, mid: nat, hi: nat)
    requires Backs(d, e, i, lo, mid) && lo <= from <= mid <= hi <= MAXFILE
    ensures NeedOver(d, i, lo, hi) == NeedOver(d, i, lo, mid) + NeedOver(e, i, from, hi)
  {
    MissingAfter(d, e, i, lo, from, mid, hi);
    MissingSplit(d, i, lo, mid, hi);
    hide HasBlock, Missing;
  }

  lemma NeedGrows(d: Disk, i: nat, lo: nat, mid: nat, hi: nat)
    requires i < |d.inodes| && lo <= mid <= hi <= MAXFILE
    ensures NeedOver(d, i, lo, mid) <= NeedOver(d, i, lo, hi)
  {
    MissingSplit(d, i, lo, mid, hi);
  }

  /** The block where the bytes written so far end. */
  lemma SpanEnd(off: nat, tot: nat)
    ensures tot == 0 || Edge(off + tot) ==> off / BSIZE + Span(off, tot) == (off + tot) / BSIZE
    ensures off / BSIZE <= (off + tot) / BSIZE <= off / BSIZE + Span(off, tot) <= (off + tot) / BSIZE + 1
    ensures off + tot <= LIMIT ==> off / BSIZE + Span(off, tot) <= MAXFILE
  {
    if tot != 0 && Edge(off + tot) {
      assert (off + tot - 1) / BSIZE == (off + tot) / BSIZE - 1;
    }
  }

  lemma SpanGoesOn(off: nat, tot: nat, n: nat)
    requires n > 0
    ensures (off + tot) / BSIZE + Span(off + tot, n) == off / BSIZE + Span(off, tot + n)
  {
  }

  lemma SpanGrows(off: nat, m: nat, n: nat)
    requires m <= n
    ensures Span(off, m) <= Span(off, n)
  {
  }

  /** After a turn of the loop of `writei`. */
  lemma BacksTurn(d: Disk, e: Disk, f: Disk, i: nat, off: nat, tot: nat, m: nat)
    requires BacksBytes(d, e, i, off, tot) && (tot == 0 || Edge(off + tot))
    requires 0 < m <= BSIZE - (off + tot) % BSIZE && (off + tot) / BSIZE < MAXFILE
    requires OnlyBlock(e, f, i, (off + tot) / BSIZE) &&
              FreeCount(f.bitmap) == FreeCount(e.bitmap) - Need(e, i, (off + tot) / BSIZE)
    ensures BacksBytes(d, f, i, off, tot + m)
  {
    var bn := (off + tot) / BSIZE;
    SpanEnd(off, tot);
    SpanTurn(off, tot, m);
    hide HasBlock, Span, Edge, Backs, OnlyBlock, Need;
    OneBlockBacks(e, f, i, bn);
    BacksTwice(d, e, f, i, off / BSIZE, bn, bn, bn + 1);
  }

  /** A turn that finds no room: there was not enough for the write. */
  lemma TurnStops(d: Disk, e: Disk, i: nat, off: nat, tot: nat, n: nat)
    requires BacksBytes(d, e, i, off, tot) && (tot == 0 || Edge(off + tot))
    requires tot < n && off + n <= LIMIT && !HasRoom(e, i, off + tot)
    ensures FreeCount(d.bitmap) < WriteNeeds(d, i, off, n)
  {
    var lo, bn := off / BSIZE, (off + tot) / BSIZE;
    SpanEnd(off, tot);
    SpanEnd(off, n);
    SpanTurn(off, tot, 1);
    SpanGrows(off, tot + 1, n);
    NeedIsOver(e, i, bn);
    hide Span, Backs, NeedOver;
    StopsOver(d, e, i, lo, bn, bn, bn + 1, lo + Span(off, n));
  }

  /** A write and another where it ended are one. */
  lemma BacksBytesTwice(d: Disk, e: Disk, f: Disk, i: nat, off: nat, tot: nat, n: nat)
    requires BacksBytes(d, e, i, off, tot) && BacksBytes(e, f, i, off + tot, n) && n > 0
    ensures BacksBytes(d, f, i, off, tot + n)
  {
    var lo, from := off / BSIZE, (off + tot) / BSIZE;
    SpanEnd(off, tot);
    SpanGoesOn(off, tot, n);
    SpanGrows(off, tot, tot + n);
    hide Backs, Span;
    BacksTwice(d, e, f, i, lo, from, lo + Span(off, tot), lo + Span(off, tot + n));
  }

  /** A second write that finds too few blocks: there were too few for both, and whatever comes after. */
  lemma ChunkStops(d: Disk, e: Disk, i: nat, off: nat, tot: nat, n: nat, w: nat)
    requires BacksBytes(d, e, i, off, tot) && 0 < n && tot + n <= w && off + w <= LIMIT
    requires i < |e.inodes| && FreeCount(e.bitmap) < WriteNeeds(e, i, off + tot, n)
    ensures FreeCount(d.bitmap) < WriteNeeds(d, i, off, w)
  {
    var lo, from := off / BSIZE, (off + tot) / BSIZE;
    SpanEnd(off, tot);
    SpanEnd(off, w);
    SpanGoesOn(off, tot, n);
    SpanGrows(off, tot, tot + n);
    SpanGrows(off, tot + n, w);
    hide Span, Backs, NeedOver;
    StopsOver(d, e, i, lo, from, lo + Span(off, tot), lo + Span(off, tot + n), lo + Span(off, w));
  }

  lemma StopsOver(d: Disk, e: Disk, i: nat, lo: nat, from: nat, mid: nat, hi: nat, top: nat)
    requires Backs(d, e, i, lo, mid) && from <= mid <= hi <= top <= MAXFILE && lo <= from
    requires FreeCount(e.bitmap) < NeedOver(e, i, from, hi)
    ensures FreeCount(d.bitmap) < NeedOver(d, i, lo, top)
  {
    NeedAfter(d, e, i, lo, from, mid, hi);
    NeedGrows(d, i, lo, hi, top);
  }

  lemma NeedIsOver(d: Disk, i: nat, bn: nat)
    requires i < |d.inodes| && bn < MAXFILE
    ensures NeedOver(d, i, bn, bn + 1) == Need(d, i, bn)
  {
    assert Missing(d, i, bn, bn) == 0;
  }

  /** A write in one block needs what its block does; one inside a hole-free file needs nothing. */
  lemma SmallWriteNeeds(d: Disk, i: nat, off: nat, n: nat)
    requires i < |d.inodes| && off + n <= LIMIT
    ensures InOneBlock(off, n) ==> off / BSIZE < MAXFILE && WriteNeeds(d, i, off, n) == Need(d, i, off / BSIZE)
    ensures NoHoles(d, i) && off + n <= d.inodes[i].size ==> WriteNeeds(d, i, off, n) == 0
  {
    SpanEnd(off, n);
    if InOneBlock(off, n) {
      SpanTurn(off, 0, n);
      NeedIsOver(d, i, off / BSIZE);
    }
    if NoHoles(d, i) && off + n <= d.inodes[i].size && n > 0 {
      InsideHasBlock(d, i, off + n - 1);
      forall c: nat | off / BSIZE <= c < off / BSIZE + Span(off, n)
        ensures HasBlock(d, i, c)
      {
        assert c * BSIZE < d.inodes[i].size;
      }
      NoneMissing(d, i, off / BSIZE, off / BSIZE + Span(off, n));
    }
  }

  lemma {:induction false} NoneMissing(d: Disk, i: nat, lo: nat, hi: nat)
    requires i < |d.inodes| && lo <= hi <= MAXFILE && forall c: nat :: lo <= c < hi ==> HasBlock(d, i, c)
    ensures NeedOver(d, i, lo, hi) == 0
  {
    if lo < hi {
      NoneMissing(d, i, lo, hi - 1);
      assert HasBlock(d, i, hi - 1);
      assert SlotOf(hi - 1) == if hi - 1 < NDIRECT then hi - 1 else hi;
    }
  }

  // ----- what a write keeps

  /** Slots that name a block go on naming it. */
  ghost predicate KeepsRefs(d: Disk, e: Disk) {
    forall t: Slot :: IsSlot(d, t) && Ref(d, t) != 0 ==> IsSlot(e, t) && Ref(e, t) == Ref(d, t)
  }

  lemma BlocksStay(d: Disk, e: Disk, i: nat)
    requires KeepsRefs(d, e) && i < |d.inodes| && i < |e.inodes|
    ensures forall bn: nat :: bn < MAXFILE && HasBlock(d, i, bn) ==> HasBlock(e, i, bn)
  {
  }

  lemma KeepsRefsTwice(d: Disk, e: Disk, f: Disk)
    requires KeepsRefs(d, e) && KeepsRefs(e, f)
    ensures KeepsRefs(d, f)
  {
    hide Ref;
  }

  /** Filling slots and then rewriting a data block keeps every name. */
  lemma ExtendsThenKeeps(d: Disk, mid: Disk, e: Disk, i: nat)
    requires Extends(d, mid, i) && |e.inodes| == |mid.inodes|
    requires forall t: Slot :: IsSlot(mid, t) ==> Ref(e, t) == Ref(mid, t)
    ensures KeepsRefs(d, e)
  {
    hide Ref;
  }

  /** The slots of all inodes but `i` hold what they held. */
  ghost predicate OthersRefs(d: Disk, e: Disk, i: nat) {
    forall t: Slot :: IsSlot(d, t) && t.inum != i ==> IsSlot(e, t) && Ref(e, t) == Ref(d, t)
  }

  lemma OthersRefsItself(d: Disk, i: nat)
    ensures OthersRefs(d, d, i)
  {
  }

  lemma ExtendsOthers(d: Disk, mid: Disk, e: Disk, i: nat)
    requires Extends(d, mid, i) && |e.inodes| == |mid.inodes|
    requires forall t: Slot :: IsSlot(mid, t) ==> Ref(e, t) == Ref(mid, t)
    ensures OthersRefs(d, e, i)
  {
    hide Ref;
  }

  lemma OthersRefsTwice(d: Disk, e: Disk, f: Disk, i: nat)
    requires OthersRefs(d, e, i) && OthersRefs(e, f, i)
    ensures OthersRefs(d, f, i)
  {
    hide Ref;
  }

  function Resized(d: Disk, i: nat, size: nat): Disk
    requires i < |d.inodes|
  {
    d.(inodes := d.inodes[i := d.inodes[i].(size := size)])
  }

  /** The size is no part of ownership, of references or of bytes. */
  lemma ResizeKeeps(d: Disk, e: Disk, owner: Owner, i: nat, off: nat, src: seq<Byte>, size: nat)
    requires Owned(e, owner) && Wrote(d, e, i, off, src) && KeepsRefs(d, e)
    ensures var f := Resized(e, i, size);
      Owned(f, owner) && Wrote(d, f, i, off, src) && KeepsRefs(d, f) && KeepsRefs(e, f) && OthersRefs(e, f, i)
  {
    var f := Resized(e, i, size);
    forall t: Slot | IsSlot(e, t)
      ensures Ref(f, t) == Ref(e, t)
    {
    }
    ResizeKeepsOwned(e, owner, i, size);
    forall j: nat | j < |d.inodes| && j != i
      ensures SameBytes(d, f, j)
    {
      SameBytesTwice(d, e, f, j);
    }
    forall p: nat | p < LIMIT
      ensures ByteWritten(d, f, i, off, src, p)
    {
      assert ByteWritten(d, e, i, off, src, p) && FileByte(f, i, p) == FileByte(e, i, p);
    }
  }

  lemma ResizeKeepsOwned(e: Disk, owner: Owner, i: nat, size: nat)
    requires Owned(e, owner) && i < |e.inodes|
    ensures Owned(Resized(e, i, size), owner)
    ensures forall j: nat :: j < |e.inodes| ==> SameBytes(e, Resized(e, i, size), j)
  {
    MetaKeepsOwned(e, owner, i, e.inodes[i].(size := size));
  }

  /** Nothing written yet. */
  lemma WroteNothing(d: Disk, i: nat, off: nat)
    requires i < |d.inodes|
    ensures Wrote(d, d, i, off, []) && KeepsRefs(d, d) && Backed(d, i, off, off)
  {
  }

  lemma BackedMore(d: Disk, e: Disk, i: nat, off: nat, at: nat, m: nat)
    requires i < |d.inodes| && i < |e.inodes| && KeepsRefs(d, e) && Backed(d, i, off, at) && off <= at
    requires at / BSIZE < MAXFILE && HasBlock(e, i, at / BSIZE) && m <= BSIZE - at % BSIZE
    ensures Backed(e, i, off, at + m)
  {
    hide Ref;
    forall bn: nat | bn < MAXFILE && off / BSIZE <= bn && bn * BSIZE < at + m
      ensures HasBlock(e, i, bn)
    {
      if bn != at / BSIZE {
        assert bn * BSIZE < at && off < at;
        assert HasBlock(d, i, bn);
      }
    }
  }

  lemma BackedStays(d: Disk, e: Disk, i: nat, lo: nat, hi: nat)
    requires i < |d.inodes| && i < |e.inodes| && KeepsRefs(d, e) && Backed(d, i, lo, hi)
    ensures Backed(e, i, lo, hi)
  {
    hide Ref;
    forall bn: nat | lo < hi && bn < MAXFILE && lo / BSIZE <= bn && bn * BSIZE < hi
      ensures HasBlock(e, i, bn)
    {
      assert HasBlock(d, i, bn);
    }
  }

  /** What is missing after some turns of a write into a hole-free file was beyond its end. */
  lemma HoleIsBeyond(d: Disk, e: Disk, i: nat, at: nat)
    requires i < |d.inodes| && i < |e.inodes| && NoHoles(d, i) && KeepsRefs(d, e)
    requires at / BSIZE < MAXFILE && !HasBlock(e, i, at / BSIZE)
    ensures d.inodes[i].size <= at
  {
    hide Ref;
    assert !HasBlock(d, i, at / BSIZE);
  }

  /** A write that starts inside a block starts in a block that is there. */
  lemma FirstBlockIsThere(d: Disk, i: nat, off: nat)
    requires i < |d.inodes| && NoHoles(d, i) && off <= d.inodes[i].size && off % BSIZE != 0
    ensures off / BSIZE < MAXFILE && HasBlock(d, i, off / BSIZE)
  {
    InsideHasBlock(d, i, off - 1);
    assert (off - 1) / BSIZE == off / BSIZE;
  }

  /** Two adjoining writes are one. */
  lemma WroteTwice(d: Disk, e: Disk, f: Disk, i: nat, off: nat, a: seq<Byte>, b: seq<Byte>)
    requires Wrote(d, e, i, off, a) && Wrote(e, f, i, off + |a|, b)
    ensures Wrote(d, f, i, off, a + b)
  {
    hide FileByte;
    var ab := a + b;
    forall p: nat | p < LIMIT
      ensures ByteWritten(d, f, i, off, ab, p)
    {
      assert ByteWritten(d, e, i, off, a, p) && ByteWritten(e, f, i, off + |a|, b, p);
    }
    forall j: nat | j < |d.inodes| && j != i
      ensures SameBytes(d, f, j)
    {
      SameBytesTwice(d, e, f, j);
    }
  }
}
