/** `mkfs`: the image it builds is well owned, and its files hold what was appended to them. */
module Mkfs {
  import opened Blocks
  import opened Ownership
  import opened Files
  import opened Dirents
  import opened Trees
  import Links
  import Crash = CrashAtomicity

  const FSSIZE := 1000
  const NINODES := 200

  /** Boot block, super block, log, inode blocks and bitmap. */
  const NMETA: nat := 2 + Crash.LOGSIZE + (NINODES / IPB + 1) + (FSSIZE / BPB + 1)

  const NO_INODE := Dinode(0, 0, 0, 0, 0, NO_ADDRS)

  /** Blocks are handed out in order, so the bitmap to be is the first `used` blocks. */
  ghost function Prefix(used: nat, size: nat): (r: seq<bool>)
    ensures |r| == size && forall b: nat :: b < size ==> (r[b] <==> b < used)
  {
    seq(size, b => b < used)
  }

  /** File `i` has exactly the blocks that start below `hi`, and an indirect block exactly if it needs one. */
  ghost predicate BlocksTo(d: Disk, i: nat, hi: nat)
    requires i < |d.inodes|
  {
    && (forall bn: nat :: bn < MAXFILE ==> (HasBlock(d, i, bn) <==> bn * BSIZE < hi))
    && (d.inodes[i].addrs[INDIRECT] != 0 <==> NDIRECT * BSIZE < hi)
  }

  /** The blocks that a file of `size` bytes takes, the indirect one with them. */
  function BlocksFor(size: nat): nat {
    (size + BSIZE - 1) / BSIZE + if size > NDIRECT * BSIZE then 1 else 0
  }

  lemma BlocksForGrows(a: nat, b: nat)
    requires a <= b
    ensures BlocksFor(a) <= BlocksFor(b)
  {
  }

  /** What a file lacks to grow inside its next block. */
  lemma NextBlock(d: Disk, i: nat, at: nat, hi: nat)
    requires i < |d.inodes| && BlocksTo(d, i, at) && at < LIMIT && at < hi <= (at / BSIZE + 1) * BSIZE
    ensures Need(d, i, at / BSIZE) == BlocksFor(hi) - BlocksFor(at)
  {
    var bn := at / BSIZE;
    hide HasBlock;
    assert HasBlock(d, i, bn) <==> bn * BSIZE < at;
    assert (hi + BSIZE - 1) / BSIZE == bn + 1;
    assert (at + BSIZE - 1) / BSIZE == if bn * BSIZE < at then bn + 1 else bn;
  }

  /** File `i` is zero from `hi` on. */
  ghost predicate ZeroFrom(d: Disk, i: nat, hi: nat)
    requires i < |d.inodes|
  {
    forall p: nat :: hi <= p < LIMIT ==> FileByte(d, i, p) == 0
  }

  /** File `i` has the blocks its size asks for, no others, and zeros past its end. */
  ghost predicate Compact(d: Disk, i: nat)
    requires i < |d.inodes|
  {
    d.inodes[i].size <= LIMIT && BlocksTo(d, i, d.inodes[i].size) && ZeroFrom(d, i, d.inodes[i].size)
  }

  lemma ZeroAfterWrite(d: Disk, e: Disk, i: nat, off: nat, src: seq<Byte>)
    requires Wrote(d, e, i, off, src) && ZeroFrom(d, i, off)
    ensures ZeroFrom(e, i, off + |src|)
  {
    hide FileByte;
    forall p: nat | off + |src| <= p < LIMIT
      ensures FileByte(e, i, p) == 0
    {
      assert ByteWritten(d, e, i, off, src, p);
    }
  }

  lemma BlocksGrow(d: Disk, mid: Disk, e: Disk, i: nat, bn: nat, at: nat, hi: nat)
    requires |d.inodes| == |mid.inodes| == |e.inodes| && i < |d.inodes| && bn < MAXFILE
    requires BlocksTo(d, i, at) && bn * BSIZE <= at < hi <= (bn + 1) * BSIZE && HasBlock(e, i, bn)
    requires forall t: Slot :: IsSlot(d, t) && t != Slot(i, SlotOf(bn)) && t != Slot(i, INDIRECT) ==>
              Ref(mid, t) == Ref(d, t)
    requires forall t: Slot :: IsSlot(mid, t) ==> Ref(e, t) == Ref(mid, t)
    requires e.inodes[i].addrs[INDIRECT] != 0 <==> d.inodes[i].addrs[INDIRECT] != 0 || bn >= NDIRECT
    ensures BlocksTo(e, i, hi)
  {
    forall c: nat | c < MAXFILE
      ensures HasBlock(e, i, c) <==> c * BSIZE < hi
    {
      if c != bn {
        var t := Slot(i, SlotOf(c));
        assert t != Slot(i, SlotOf(bn)) && IsSlot(d, t) && IsSlot(mid, t);
        assert HasBlock(e, i, c) <==> HasBlock(d, i, c);
      }
    }
  }

  lemma BlocksStayTo(d: Disk, e: Disk, i: nat, hi: nat)
    requires i < |d.inodes| && i < |e.inodes| && BlocksTo(d, i, hi) && d.blocks == e.blocks
    requires e.inodes[i].addrs == d.inodes[i].addrs
    ensures BlocksTo(e, i, hi)
  {
    forall c: nat | c < MAXFILE
      ensures HasBlock(e, i, c) <==> HasBlock(d, i, c)
    {
    }
  }

  class Image {
    var blocks: seq<Block>
    var inodes: seq<Dinode>
    var bitmap: seq<bool>
    var freeblock: nat
    var freeinode: nat
    ghost var owner: Owner

    /** The image, with the bitmap that `balloc` will write. */
    ghost function Planned(): Disk
      reads this
    {
      Disk(NMETA, Prefix(freeblock, |blocks|), blocks, inodes)
    }

    ghost predicate Valid()
      reads this
    {
      && Owned(Planned(), owner) && 0 < freeinode <= |inodes| == NINODES && NMETA <= freeblock <= |blocks| == FSSIZE
      && (forall b: nat :: freeblock <= b < |blocks| ==> blocks[b] == ZERO_BLOCK)
      && (forall i: nat :: freeinode <= i < |inodes| || i == 0 ==> inodes[i] == NO_INODE)
    }

    /** The start of `main`: all sectors are zero. */
    constructor ()
      ensures Valid() && freeinode == 1 && freeblock == 59 && owner == map[] && |inodes| == 200 && |blocks| == 1000
      ensures forall i: nat :: i < NINODES ==> inodes[i] == NO_INODE
    {
      var zeros: seq<Block> := seq(FSSIZE, _ => ZERO_BLOCK);
      blocks := zeros;
      inodes := seq(NINODES, _ => NO_INODE);
      bitmap := seq(FSSIZE, _ => false);
      freeblock := NMETA;
      freeinode := 1;
      owner := map[];
      new;
      assert forall s: Slot :: IsSlot(Planned(), s) ==> SlotOk(Planned(), owner, s);
    }

    /** `ialloc` takes the next inode; `None` when there is none left, where the source would write past its inode
      blocks. */
    method Ialloc(ty: int) returns (r: Option<nat>)
      requires Valid() && ty != 0
      modifies `inodes, `freeinode
      ensures Valid() && (r == None <==> old(freeinode) == NINODES)
      ensures r == None ==> unchanged(this)
      ensures r.Some? ==>
                && r.value == old(freeinode) && freeinode == old(freeinode) + 1
                && inodes == old(inodes)[r.value := NO_INODE.(typ := ty, nlink := 1)]
                && OthersSame(old(Planned()), Planned(), r.value) && Compact(Planned(), r.value)
    {
      if freeinode == NINODES {
        return None;
      }
      ghost var d := Planned();
      var din := NO_INODE.(typ := ty, nlink := 1);
      MetaKeepsOwned(d, owner, freeinode, din);
      inodes := inodes[freeinode := din];
      assert Planned() == d.(inodes := d.inodes[freeinode := din]);
      freeinode := freeinode + 1;
      return Some(freeinode - 1);
    }

    /** `balloc` writes the bitmap of the blocks handed out; it is the planned one. */
    method Balloc(used: nat)
      requires Valid() && used == freeblock
      modifies `bitmap
      ensures Valid() && Owned(Disk(NMETA, bitmap, blocks, inodes), owner) &&
                Disk(NMETA, bitmap, blocks, inodes) == Planned()
    {
      bitmap := seq(FSSIZE, _ => false);
      for i := 0 to used
        invariant |bitmap| == FSSIZE && forall b: nat :: b < FSSIZE ==> (bitmap[b] <==> b < i)
      {
        bitmap := bitmap[i := true];
      }
      assert bitmap == Prefix(freeblock, |blocks|);
    }

    /** Every file but `i` is as it was, in its bytes and in its blocks. */
    static ghost predicate OthersSame(d: Disk, e: Disk, i: nat) {
      && |d.inodes| == |e.inodes| && OthersRefs(d, e, i)
      && forall j: nat :: j < |d.inodes| && j != i ==> SameBytes(d, e, j) && e.inodes[j] == d.inodes[j]
    }

    // ----- appending

    /** The image with inode `inum` as the local copy `din` has it. */
    ghost function View(inum: nat, din: Dinode): Disk
      requires inum < |inodes|
      reads this
    {
      Planned().(inodes := inodes[inum := din])
    }

    /** The image is in order but for inode `inum`, which `din` will replace. */
    ghost predicate Open(inum: nat, din: Dinode)
      reads this
    {
      && 0 < inum < freeinode <= |inodes| == NINODES && din.typ != 0 && Owned(View(inum, din), owner)
      && NMETA <= freeblock <= |blocks| == FSSIZE
      && (forall b: nat :: freeblock <= b < |blocks| ==> blocks[b] == ZERO_BLOCK)
      && (forall i: nat :: freeinode <= i < |inodes| || i == 0 ==> inodes[i] == NO_INODE)
    }

    /** From `d` to `e` only slot `s` of those that hold data was filled. */
    static ghost predicate OnlyFilled(d: Disk, e: Disk, i: nat, s: Slot) {
      forall t: Slot :: IsSlot(d, t) && IsSlot(e, t) && t != s && t != Slot(i, INDIRECT) ==> Ref(e, t) == Ref(d, t)
    }

    /** The next block is given to slot `k` of the local copy; `None` when the image is full, where the source would
    write past its end. */
    method TakeForAddr(inum: nat, din: Dinode, k: nat) returns (r: Option<nat>, din': Dinode)
      requires Open(inum, din) && k <= INDIRECT && din.addrs[k] == 0
      modifies `freeblock, `owner
      ensures r == None <==> old(freeblock) == FSSIZE
      ensures r.Some? ==>
                && freeblock == old(freeblock) + 1
                && Open(inum, din') && din' == din.(addrs := din.addrs[k := r.value]) && r.value != 0
                && Extends(old(View(inum, din)), View(inum, din'), inum)
                && OnlyFilled(old(View(inum, din)), View(inum, din'), inum, Slot(inum, k))
    {
      din' := din;
      if freeblock == |blocks| {
        return None, din;
      }
      ghost var d, s, b := View(inum, din), Slot(inum, k), freeblock;
      din' := din.(addrs := din.addrs[k := freeblock]);
      freeblock := freeblock + 1;
      assert BlockOk(d, owner, b);
      assert Fillable(d, owner, s, b);
      FillExtends(d, owner, s, b);
      FillsOnly(d, owner, s, b);
      assert View(inum, din') == Filled(d, s, b) by {
        assert blocks[b := ZERO_BLOCK] == blocks;
        assert Prefix(b + 1, |blocks|) == Prefix(b, |blocks|)[b := true];
      }
      owner := owner[b := s];
      r := Some(freeblock - 1);
    }

    static lemma FillsOnly(d: Disk, owner: Owner, s: Slot, b: nat)
      requires Owned(d, owner) && Fillable(d, owner, s, b)
      requires s.k > INDIRECT ==> d.inodes[s.inum].addrs[INDIRECT] < |d.blocks|
      ensures OnlyFilled(d, Filled(d, s, b), s.inum, s)
    {
      forall t: Slot | IsSlot(d, t)
        ensures t != s ==> Ref(Filled(d, s, b), t) == Ref(d, t)
      {
        RefAfterFill(d, owner, s, b, t);
      }
    }

    /** The same for a word of the indirect block. */
    method TakeForWord(inum: nat, din: Dinode, j: nat) returns (r: Option<nat>)
      requires Open(inum, din) && j < NINDIRECT && din.addrs[INDIRECT] != 0
      requires Ref(View(inum, din), Slot(inum, 13 + j)) == 0
      modifies `blocks, `freeblock, `owner
      ensures r == None <==> old(freeblock) == FSSIZE
      ensures r.Some? ==>
                && freeblock == old(freeblock) + 1
                && Open(inum, din) && r.value == Ref(View(inum, din), Slot(inum, 13 + j)) != 0
                && Extends(old(View(inum, din)), View(inum, din), inum)
                && OnlyFilled(old(View(inum, din)), View(inum, din), inum, Slot(inum, 13 + j))
    {
      if freeblock == |blocks| {
        return None;
      }
      ghost var d, s, b := View(inum, din), Slot(inum, 13 + j), freeblock;
      var bp := din.addrs[INDIRECT];
      PointerIsOwned(d, owner, inum);
      assert BlockOk(d, owner, b);
      assert Fillable(d, owner, s, b);
      FillExtends(d, owner, s, b);
      FillsOnly(d, owner, s, b);
      blocks := blocks[bp := SetWord(blocks[bp], j, freeblock)];
      freeblock := freeblock + 1;
      assert View(inum, din) == Filled(d, s, b) by {
        assert d.blocks[b := ZERO_BLOCK] == d.blocks;
        assert Prefix(b + 1, |blocks|) == Prefix(b, |blocks|)[b := true];
      }
      owner := owner[b := s];
      r := Some(freeblock - 1);
    }

    /** The block of `iappend` for block `fbn` of the file, taken if it is missing. */
    method MapBlock(inum: nat, din: Dinode, fbn: nat) returns (r: Option<nat>, din': Dinode)
      requires Open(inum, din) && fbn < MAXFILE
      modifies `blocks, `freeblock, `owner
      ensures r == None <==> old(freeblock) + Need(old(View(inum, din)), inum, fbn) > FSSIZE
      ensures r.Some? ==>
                && freeblock == old(freeblock) + Need(old(View(inum, din)), inum, fbn)
                && Open(inum, din') && din' == din.(addrs := din'.addrs)
                && (din'.addrs[INDIRECT] != 0 <==> din.addrs[INDIRECT] != 0 || fbn >= NDIRECT)
                && r.value == Ref(View(inum, din'), Slot(inum, SlotOf(fbn))) != 0
                && Extends(old(View(inum, din)), View(inum, din'), inum)
                && OnlyFilled(old(View(inum, din)), View(inum, din'), inum, Slot(inum, SlotOf(fbn)))
    {
      hide Owned, Extends, WordAt;
      ghost var d := View(inum, din);
      OwnedShape(d, owner);
      ExtendsItself(d, inum);
      din' := din;
      if fbn < NDIRECT {
        if din.addrs[fbn] == 0 {
          r, din' := TakeForAddr(inum, din, fbn);
          return;
        }
        return Some(din.addrs[fbn]), din;
      }
      if din.addrs[INDIRECT] == 0 {
        var p;
        p, din' := TakeForAddr(inum, din, INDIRECT);
        if p == None {
          return None, din';
        }
      }
      ghost var e := View(inum, din');
      PointerIsOwned(e, owner, inum);
      var x := WordAt(blocks[din'.addrs[INDIRECT]], fbn - NDIRECT);
      r := Some(x);
      if x == 0 {
        r := TakeForWord(inum, din', fbn - NDIRECT);
        if r == None {
          return;
        }
        ExtendsTwice(d, e, View(inum, din'), inum);
      }
    }

    /** One turn of the loop of `iappend`. False stops: the file or the image is full. */
    method AppendPart(inum: nat, din: Dinode, xp: seq<Byte>, off: nat, tot: nat, ghost d: Disk)
        returns (ok: bool, din': Dinode, n1: nat)
      requires Open(inum, din) && tot < |xp| && Wrote(d, View(inum, din), inum, off, xp[..tot])
      requires BlocksTo(View(inum, din), inum, off + tot)
      modifies `blocks, `freeblock, `owner
      ensures !ok ==> off + |xp| > LIMIT ||
                         old(freeblock) + BlocksFor(off + |xp|) - BlocksFor(off + tot) > FSSIZE
      ensures ok ==>
                && 0 < n1 <= |xp| - tot && Open(inum, din') && din' == din.(addrs := din'.addrs) &&
                     off + tot + n1 <= LIMIT
                && freeblock == old(freeblock) + BlocksFor(off + tot + n1) - BlocksFor(off + tot)
                && Wrote(d, View(inum, din'), inum, off, xp[..tot + n1])
                && KeepsRefs(old(View(inum, din)), View(inum, din')) &&
                     OthersRefs(old(View(inum, din)), View(inum, din'), inum)
                && BlocksTo(View(inum, din'), inum, off + tot + n1)
    {
      hide Owned, Extends, Wrote, Ref, BlocksTo, BlocksFor, Need;
      ghost var cur := View(inum, din);
      var at := off + tot;
      var fbn := at / BSIZE;
      din', n1 := din, 0;
      if fbn >= MAXFILE {
        return false, din, 0;
      }
      n1 := if |xp| - tot < (fbn + 1) * BSIZE - at then |xp| - tot else (fbn + 1) * BSIZE - at;
      NextBlock(cur, inum, at, at + n1);
      BlocksForGrows(at + n1, off + |xp|);
      var x;
      x, din' := MapBlock(inum, din, fbn);
      if x == None {
        return false, din', 0;
      }
      ghost var mid := View(inum, din');
      ghost var src := xp[..tot + n1];
      assert src[..tot] == xp[..tot] && src[..tot + n1] == src && src[tot..tot + n1] == xp[tot..tot + n1];
      BlockOfSlot(mid, owner, Slot(inum, SlotOf(fbn)));
      assert (at - fbn * BSIZE) == at % BSIZE;
      WriteTurn(d, cur, mid, owner, inum, off, src, tot, n1, fbn, at % BSIZE);
      blocks := blocks[x.value := Patched(blocks[x.value], at - fbn * BSIZE, xp[tot..tot + n1])];
      ExtendsThenKeeps(cur, mid, View(inum, din'), inum);
      ExtendsOthers(cur, mid, View(inum, din'), inum);
      BlocksGrow(cur, mid, View(inum, din'), inum, fbn, at, at + n1);
      ok := true;
    }

    static lemma BlockOfSlot(d: Disk, owner: Owner, s: Slot)
      requires Owned(d, owner) && IsSlot(d, s) && Ref(d, s) != 0
      ensures d.nmeta <= Ref(d, s) < |d.blocks| && d.bitmap[Ref(d, s)]
    {
      assert SlotOk(d, owner, s);
      assert BlockOk(d, owner, Ref(d, s));
    }

    /** `iappend` adds bytes to the end of a file, and leaves every other file as it was. False stops: the file would be
    larger than a file can be, or the image is full. */
    method Iappend(inum: nat, xp: seq<Byte>) returns (ok: bool)
      requires Valid() && 0 < inum < freeinode && inodes[inum].typ != 0 && Compact(Planned(), inum)
      modifies `blocks, `freeblock, `owner, `inodes
      ensures ok <==>
                var size := old(inodes[inum]).size;
                size + |xp| <= LIMIT && old(freeblock) + BlocksFor(size + |xp|) - BlocksFor(size) <= FSSIZE
      ensures ok ==>
                var size := old(inodes[inum]).size;
                freeblock == old(freeblock) + BlocksFor(size + |xp|) - BlocksFor(size)
      ensures ok ==>
                && Valid() && Compact(Planned(), inum)
                && Contents(Planned(), inum) == old(Contents(Planned(), inum)) + xp
                && inodes[inum] == old(inodes[inum]).(size := old(inodes[inum]).size + |xp|, addrs :=
                     inodes[inum].addrs)
                && OthersSame(old(Planned()), Planned(), inum)
    {
      hide Owned, Wrote, KeepsRefs, OthersRefs, BlocksTo, BlocksFor, HasBlock, ZeroFrom;
      var din := inodes[inum];
      var off := din.size;
      ghost var d := Planned();
      SizeFits(d, inum);
      assert View(inum, din) == d;
      OthersRefsItself(d, inum);
      WroteNothing(d, inum, off);
      assert xp[..0] == [];
      var tot := 0;
      while tot < |xp|
        invariant 0 <= tot <= |xp| && off + tot <= LIMIT
        invariant inodes == d.inodes && din == d.inodes[inum].(addrs := din.addrs)
        invariant Open(inum, din) && Wrote(d, View(inum, din), inum, off, xp[..tot])
        invariant KeepsRefs(d, View(inum, din)) && OthersRefs(d, View(inum, din), inum)
        invariant BlocksTo(View(inum, din), inum, off + tot)
        invariant freeblock == old(freeblock) + BlocksFor(off + tot) - BlocksFor(off)
      {
        ghost var e := View(inum, din);
        var n1;
        ok, din, n1 := AppendPart(inum, din, xp, off, tot, d);
        if !ok {
          return;
        }
        KeepsRefsTwice(d, e, View(inum, din));
        OthersRefsTwice(d, e, View(inum, din), inum);
        tot := tot + n1;
      }
      assert xp[..tot] == xp;
      Close(inum, din, xp, d);
      OthersKept(d, Planned(), inum, off, xp);
      ok := true;
    }

    static lemma SizeFits(d: Disk, i: nat)
      requires i < |d.inodes| && Compact(d, i)
      ensures d.inodes[i].size <= LIMIT && BlocksTo(d, i, d.inodes[i].size) && NoHoles(d, i) &&
                ZeroFrom(d, i, d.inodes[i].size)
    {
    }

    /** The end of `iappend`: the local copy, with its new size, goes to the image. */
    method Close(inum: nat, din: Dinode, xp: seq<Byte>, ghost d: Disk)
      requires inum < |d.inodes| && d.inodes[inum].size == din.size && din.size + |xp| <= LIMIT
      requires Open(inum, din) && Wrote(d, View(inum, din), inum, din.size, xp) && KeepsRefs(d, View(inum, din))
      requires OthersRefs(d, View(inum, din), inum)
      requires BlocksTo(View(inum, din), inum, din.size + |xp|) && ZeroFrom(d, inum, din.size)
      modifies `inodes
      ensures inodes == old(inodes)[inum := din.(size := din.size + |xp|)]
      ensures Valid() && Compact(Planned(), inum) && Wrote(d, Planned(), inum, din.size, xp)
      ensures OthersRefs(d, Planned(), inum)
      ensures Contents(Planned(), inum) == Contents(d, inum) + xp
    {
      hide Owned, Wrote, KeepsRefs, BlocksTo, HasBlock, ZeroFrom;
      ghost var e := View(inum, din);
      var size := din.size + |xp|;
      WroteShape(d, e, inum, din.size, xp);
      ResizeKeeps(d, e, owner, inum, din.size, xp, size);
      inodes := inodes[inum := din.(size := size)];
      assert Planned() == Resized(e, inum, size);
      BlocksStayTo(e, Planned(), inum, size);
      ZeroAfterWrite(d, Planned(), inum, din.size, xp);
      AppendIsSplice(d, Planned(), inum, xp);
    }

    static lemma OthersKept(d: Disk, e: Disk, i: nat, off: nat, src: seq<Byte>)
      requires Wrote(d, e, i, off, src) && OthersRefs(d, e, i)
      ensures OthersSame(d, e, i)
    {
    }

    static lemma AppendIsSplice(d: Disk, e: Disk, i: nat, xp: seq<Byte>)
      requires i < |d.inodes| && i < |e.inodes| && Wrote(d, e, i, d.inodes[i].size, xp)
      requires e.inodes[i].size == d.inodes[i].size + |xp| <= LIMIT
      ensures Contents(e, i) == Contents(d, i) + xp
    {
      hide Wrote, FileByte;
      WroteIsSplice(d, e, i, d.inodes[i].size, xp);
      var was := Contents(d, i);
      assert was[..|was|] == was && Spliced(was, |was|, xp) == was + xp;
    }

    /** The end of `main` rounds the size of the root directory up to the next multiple of a block, even when it is
      one. */
    method RoundRoot(rootino: nat)
      requires Valid() && 0 < rootino < freeinode && inodes[rootino].typ != 0 && Compact(Planned(), rootino)
      modifies `inodes
      ensures Valid()
      ensures inodes == old(inodes)[rootino :=
                old(inodes)[rootino].(size := (old(inodes)[rootino].size / BSIZE + 1) * BSIZE)]
      ensures NoHoles(Planned(), rootino) <==> old(inodes)[rootino].size % BSIZE != 0
      ensures OthersSame(old(Planned()), Planned(), rootino) && SameBytes(old(Planned()), Planned(), rootino)
    {
      hide Owned;
      ghost var d := Planned();
      var din := inodes[rootino];
      var off := (din.size / BSIZE + 1) * BSIZE;
      MetaKeepsOwned(d, owner, rootino, din.(size := off));
      inodes := inodes[rootino := din.(size := off)];
      assert Planned() == d.(inodes := d.inodes[rootino := din.(size := off)]);
      RoundUpHole(d, rootino, off);
      hide *;
      ResizedIsSame(d, rootino, off);
    }

    static lemma ResizedIsSame(d: Disk, i: nat, size: nat)
      requires i < |d.inodes|
      ensures var e := d.(inodes := d.inodes[i := d.inodes[i].(size := size)]);
        OthersSame(d, e, i) && SameBytes(d, e, i)
    {
    }

    /** Rounding a compact file up leaves a hole exactly when its size was a multiple of the block size. */
    static lemma RoundUpHole(d: Disk, i: nat, size: nat)
      requires i < |d.inodes| && Compact(d, i) && size == (d.inodes[i].size / BSIZE + 1) * BSIZE
      ensures NoHoles(Resized(d, i, size), i) <==> d.inodes[i].size % BSIZE != 0
    {
      var e := Resized(d, i, size);
      var last := d.inodes[i].size / BSIZE;
      forall bn: nat | bn < MAXFILE
        ensures HasBlock(e, i, bn) <==> HasBlock(d, i, bn)
      {
      }
      if d.inodes[i].size % BSIZE == 0 {
        if last < MAXFILE {
          assert !HasBlock(d, i, last);
          assert !HasBlock(e, i, last) && last * BSIZE < size;
        }
      } else {
        forall bn: nat | bn < MAXFILE && bn * BSIZE < size
          ensures HasBlock(e, i, bn)
        {
          assert bn <= last && bn * BSIZE < d.inodes[i].size;
        }
      }
    }

    /** The file loop of `main`: the bytes of a file are appended a buffer at a time. */
    method AppendFile(inum: nat, data: seq<Byte>) returns (ok: bool)
      requires Valid() && 0 < inum < freeinode && inodes[inum].typ != 0 && Compact(Planned(), inum) &&
                inodes[inum].size == 0
      modifies `blocks, `freeblock, `owner, `inodes
      ensures ok <==> |data| <= LIMIT && old(freeblock) + BlocksFor(|data|) <= FSSIZE
      ensures ok ==>
                && freeblock == old(freeblock) + BlocksFor(|data|)
                && Valid() && Compact(Planned(), inum) && Contents(Planned(), inum) == data
                && inodes[inum].typ == old(inodes[inum]).typ && inodes[inum].nlink == old(inodes[inum]).nlink
                && OthersSame(old(Planned()), Planned(), inum)
    {
      ghost var d := Planned();
      OthersSameItself(d, inum);
      EmptyContents(d, inum);
      assert BlocksFor(0) == 0;
      hide Owned, Compact, Contents, BlocksFor, OthersSame, FileByte;
      var pos := 0;
      while pos < |data|
        invariant 0 <= pos <= |data| && Valid() && Compact(Planned(), inum) && OthersSame(d, Planned(), inum)
        invariant inodes[inum].typ == d.inodes[inum].typ && inodes[inum].nlink == d.inodes[inum].nlink
        invariant inodes[inum].size <= LIMIT && Contents(Planned(), inum) == data[..pos]
        invariant freeblock == old(freeblock) + BlocksFor(pos)
      {
        ghost var e := Planned();
        var cc := if |data| - pos < BSIZE then |data| - pos else BSIZE;
        ContentsLength(e, inum);
        BlocksForGrows(pos + cc, |data|);
        ok := Iappend(inum, data[pos..pos + cc]);
        if !ok {
          return;
        }
        OthersSameTwice(d, e, Planned(), inum);
        assert data[..pos] + data[pos..pos + cc] == data[..pos + cc];
        SizeFits(Planned(), inum);
        pos := pos + cc;
      }
      assert data[..pos] == data;
      ok := true;
    }

    static lemma OthersSameItself(d: Disk, i: nat)
      ensures OthersSame(d, d, i)
    {
    }

    static lemma OthersSameTwice(d: Disk, e: Disk, f: Disk, i: nat)
      requires OthersSame(d, e, i) && OthersSame(e, f, i)
      ensures OthersSame(d, f, i)
    {
      OthersRefsTwice(d, e, f, i);
      forall j: nat | j < |d.inodes| && j != i
        ensures SameBytes(d, f, j)
      {
        SameBytesTwice(d, e, f, j);
      }
    }

    /** File `i` is a file of one link that holds `data`, without a hole. */
    static ghost predicate HasFile(d: Disk, i: nat, data: seq<Byte>) {
      && i < |d.inodes| && d.inodes[i].typ == T_FILE && d.inodes[i].nlink == 1 && d.inodes[i].size <= LIMIT
      && Contents(d, i) == data && NoHoles(d, i)
    }

    static lemma FileStays(d: Disk, e: Disk, i: nat, j: nat, data: seq<Byte>)
      requires HasFile(d, j, data) && OthersSame(d, e, i) && j != i
      ensures HasFile(e, j, data)
    {
      assert SameBytes(d, e, j);
      assert Contents(e, j) == Contents(d, j);
      SameBlocks(d, e, i, j);
    }

    static lemma EmptyContents(d: Disk, i: nat)
      requires i < |d.inodes| && d.inodes[i].size == 0
      ensures Contents(d, i) == []
    {
    }

    static lemma NewFile(d: Disk, e: Disk, i: nat, data: seq<Byte>)
      requires i < |e.inodes| && Compact(e, i) && e.inodes[i].typ == T_FILE && e.inodes[i].nlink == 1
      requires e.inodes[i].size <= LIMIT && Contents(e, i) == data
      ensures HasFile(e, i, data)
    {
    }

    /** What stays of a file that another one's operation leaves alone. */
    static lemma RootStays(d: Disk, e: Disk, i: nat)
      requires OthersSame(d, e, i) && i != 1 && 1 < |d.inodes| && Compact(d, 1) && d.inodes[1].size <= LIMIT
      ensures 1 < |e.inodes| && Compact(e, 1) && e.inodes[1] == d.inodes[1] && Contents(e, 1) == Contents(d, 1)
    {
      assert SameBytes(d, e, 1);
      assert Contents(e, 1) == Contents(d, 1);
      SameBlocks(d, e, i, 1);
    }

    static lemma SameBlocks(d: Disk, e: Disk, i: nat, j: nat)
      requires OthersRefs(d, e, i) && j != i && j < |d.inodes| == |e.inodes|
      ensures forall bn: nat :: bn < MAXFILE ==> (HasBlock(e, j, bn) <==> HasBlock(d, j, bn))
    {
      forall bn: nat | bn < MAXFILE
        ensures HasBlock(e, j, bn) <==> HasBlock(d, j, bn)
      {
        var t := Slot(j, SlotOf(bn));
        assert IsSlot(d, t);
      }
    }

    /** The image after the first `k` files. */
    ghost predicate HasFiles(names: seq<seq<Byte>>, files: seq<seq<Byte>>, k: nat)
      requires k <= |names| == |files|
      reads this
    {
      && Valid() && freeinode == 2 + k && Compact(Planned(), 1) && inodes[1].size <= LIMIT
      && inodes[1].typ == T_DIR && inodes[1].nlink == 1 && Contents(Planned(), 1) == RootBytes(names[..k])
      && forall j: nat :: j < k ==> HasFile(Planned(), 2 + j, files[j])
    }

    /** The blocks that the first `k` files and their root directory take. */
    static function BlocksUpTo(files: seq<seq<Byte>>, k: nat): nat
      requires k <= |files|
    {
      BlocksFor(DIRENT * (k + 2)) + FileBlocks(files, k)
    }

    static function FileBlocks(files: seq<seq<Byte>>, k: nat): nat
      requires k <= |files|
    {
      if k == 0 then 0 else FileBlocks(files, k - 1) + BlocksFor(|files[k - 1]|)
    }

    static lemma {:induction false} BlocksUpToGrows(files: seq<seq<Byte>>, k: nat, m: nat)
      requires k <= m <= |files|
      ensures BlocksUpTo(files, k) <= BlocksUpTo(files, m)
      decreases m
    {
      if k < m {
        BlocksUpToGrows(files, k, m - 1);
        BlocksForGrows(DIRENT * (m + 1), DIRENT * (m + 2));
      }
    }

    /** The inode of the next file and its entry in the root; `e` is the image with the inode alone. */
    method EnterName(names: seq<seq<Byte>>, files: seq<seq<Byte>>, k: nat) returns (r: Option<nat>, ghost e: Disk)
      requires k < |names| == |files| && Readable(names[k], DIRSIZ) && HasFiles(names, files, k)
      modifies this
      ensures r == None <==>
                || 2 + k == NINODES
                || old(freeblock) + RootGrowth(k) > FSSIZE
      ensures r.Some? ==>
                && r.value == 2 + k && NameEntered(names, k, old(Planned()), e)
                && freeblock == old(freeblock) + RootGrowth(k)
    {
      hide Owned, Compact, Contents, HasFile, OthersSame, BlocksFor, RootBytes, HasFiles, NameEntered, RootGrowth,
          Valid;
      FilesAre(names, files, k);
      OneRecordMore(names, k);
      ghost var d := Planned();
      r := Ialloc(T_FILE);
      e := Planned();
      if r == None {
        return;
      }
      RootStays(d, e, r.value);
      ContentsLength(e, 1);
      RecordGrows(e.inodes[1].size, k);
      var ok := Iappend(1, Record(r.value, names[k]));
      if !ok {
        r := None;
        return;
      }
      NameIsEntered(names, k, d, e);
    }

    /** The root has the entry of the next file, whose inode is new: `d` is the image before, `e` that with the inode
    alone. */
    ghost predicate NameEntered(names: seq<seq<Byte>>, k: nat, d: Disk, e: Disk)
      requires k < |names|
      reads this
    {
      && Valid() && freeinode == 3 + k && k + 3 <= INUM_RANGE && OthersSame(d, e, 2 + k) && OthersSame(e, Planned(), 1)
      && Compact(Planned(), 1) && inodes[1].size <= LIMIT && inodes[1].typ == T_DIR && inodes[1].nlink == 1
      && Contents(Planned(), 1) == RootBytes(names[..k + 1])
      && Compact(Planned(), 2 + k) && inodes[2 + k] == NO_INODE.(typ := T_FILE, nlink := 1)
    }

    lemma NameIsEntered(names: seq<seq<Byte>>, k: nat, d: Disk, e: Disk)
      requires k < |names| && Valid() && freeinode == 3 + k && OthersSame(d, e, 2 + k) && OthersSame(e, Planned(), 1)
      requires Compact(Planned(), 1) && inodes[1].typ == T_DIR && inodes[1].nlink == 1
      requires inodes[1].size <= LIMIT && Contents(Planned(), 1) == RootBytes(names[..k + 1])
      requires |e.inodes| == NINODES && Compact(e, 2 + k) && e.inodes[2 + k] == NO_INODE.(typ := T_FILE, nlink := 1)
      ensures NameEntered(names, k, d, e)
    {
      hide Owned, Compact, Contents, OthersSame, RootBytes;
      NewStays(e, Planned(), 2 + k);
    }

    /** One turn of the loop of `main`. */
    method AddFile(names: seq<seq<Byte>>, files: seq<seq<Byte>>, k: nat, ghost first: nat) returns (ok: bool)
      requires k < |names| == |files| && Readable(names[k], DIRSIZ) && HasFiles(names, files, k)
      requires freeblock == first + BlocksUpTo(files, k)
      modifies this
      ensures ok <==> 2 + k < NINODES && |files[k]| <= LIMIT && first + BlocksUpTo(files, k + 1) <= FSSIZE
      ensures ok ==> HasFiles(names, files, k + 1) && freeblock == first + BlocksUpTo(files, k + 1)
    {
      OneFileMore(files, k);
      hide Owned, Compact, Contents, HasFile, OthersSame, BlocksFor, BlocksUpTo, RootBytes, HasFiles, RootGrowth;
      FilesAre(names, files, k);
      ghost var d := Planned();
      var inum, e := EnterName(names, files, k);
      if inum == None {
        return false;
      }
      ghost var f := Planned();
      ok := AppendFile(inum.value, files[k]);
      if ok {
        FilesAfter(names, files, k, d, e, f);
      }
    }

    /** The image after another file: `d`, `e` and `f` are those before it, with its inode and with its entry. */
    lemma FilesAfter(names: seq<seq<Byte>>, files: seq<seq<Byte>>, k: nat, d: Disk, e: Disk, f: Disk)
      requires k < |names| == |files| && Valid() && freeinode == 3 + k && |d.inodes| == |f.inodes| == NINODES
      requires OthersSame(d, e, 2 + k) && OthersSame(e, f, 1) && OthersSame(f, Planned(), 2 + k)
      requires forall j: nat :: j < k ==> HasFile(d, 2 + j, files[j])
      requires Compact(f, 1) && f.inodes[1].size <= LIMIT && f.inodes[1].typ == T_DIR && f.inodes[1].nlink == 1
      requires Contents(f, 1) == RootBytes(names[..k + 1]) && Compact(Planned(), 2 + k)
      requires inodes[2 + k].typ == T_FILE && inodes[2 + k].nlink == 1 && Contents(Planned(), 2 + k) == files[k]
      ensures HasFiles(names, files, k + 1)
    {
      hide Owned, Compact, Contents, HasFile, OthersSame, RootBytes;
      var g := Planned();
      RootStays(f, g, 2 + k);
      SizeFits(g, 2 + k);
      NewFile(d, g, 2 + k, files[k]);
      FilesStay(d, e, f, g, 2 + k, files, k);
    }

    /** What `HasFiles` says of the root and of the image. */
    lemma FilesAre(names: seq<seq<Byte>>, files: seq<seq<Byte>>, k: nat)
      requires k <= |names| == |files| && HasFiles(names, files, k)
      ensures Valid() && freeinode == 2 + k <= |inodes| == NINODES && Compact(Planned(), 1) && inodes[1].size <= LIMIT
      ensures inodes[1].typ == T_DIR && inodes[1].nlink == 1 && Contents(Planned(), 1) == RootBytes(names[..k])
      ensures forall j: nat :: j < k ==> HasFile(Planned(), 2 + j, files[j])
    {
    }

    static lemma OneRecordMore(names: seq<seq<Byte>>, k: nat)
      requires k < |names| && 2 + k < INUM_RANGE
      ensures RootBytes(names[..k + 1]) == RootBytes(names[..k]) + Record(2 + k, names[k])
      ensures |RootBytes(names[..k])| == DIRENT * (k + 2)
    {
      assert names[..k + 1][..k] == names[..k];
    }

    static lemma OneFileMore(files: seq<seq<Byte>>, k: nat)
      requires k < |files|
      ensures BlocksUpTo(files, k + 1)
           == BlocksUpTo(files, k) + RootGrowth(k) + BlocksFor(|files[k]|)
    {
    }

    /** The blocks that one more record takes in a root directory with the entries of `k` files. */
    static function RootGrowth(k: nat): nat {
      BlocksForGrows(DIRENT * (k + 2), DIRENT * (k + 3));
      BlocksFor(DIRENT * (k + 3)) - BlocksFor(DIRENT * (k + 2))
    }

    static lemma RecordGrows(size: nat, k: nat)
      requires size == DIRENT * (k + 2) && k < NINODES
      ensures BlocksFor(size + DIRENT) - BlocksFor(size) == RootGrowth(k) && size + DIRENT <= LIMIT
    {
    }

    static lemma FilesStay(d: Disk, e: Disk, f: Disk, g: Disk, i: nat, files: seq<seq<Byte>>, k: nat)
      requires OthersSame(d, e, i) && OthersSame(e, f, 1) && OthersSame(f, g, i) && i == 2 + k && k <= |files|
      requires forall j: nat :: j < k ==> HasFile(d, 2 + j, files[j])
      ensures forall j: nat :: j < k ==> HasFile(g, 2 + j, files[j])
    {
      hide HasFile, OthersSame;
      forall j: nat | j < k
        ensures HasFile(g, 2 + j, files[j])
      {
        FileStays(d, e, i, 2 + j, files[j]);
        FileStays(e, f, 1, 2 + j, files[j]);
        FileStays(f, g, i, 2 + j, files[j]);
      }
    }

    static lemma NewStays(e: Disk, f: Disk, i: nat)
      requires OthersSame(e, f, 1) && i != 1 && i < |e.inodes| && Compact(e, i)
      ensures |f.inodes| == |e.inodes| && Compact(f, i) && f.inodes[i] == e.inodes[i]
    {
      SameBlocks(e, f, 1, i);
    }

    /** Rounding the size of the root up adds zeros, and changes no other file. */
    static lemma RoundKeeps(d: Disk, e: Disk, names: seq<seq<Byte>>, files: seq<seq<Byte>>)
      requires |names| == |files| && |names| + 2 <= NINODES && |d.inodes| == NINODES && d.inodes[1].size <= LIMIT
      requires Contents(d, 1) == RootBytes(names) && ZeroFrom(d, 1, d.inodes[1].size)
      requires OthersSame(d, e, 1) && SameBytes(d, e, 1)
      requires e.inodes[1].size == (d.inodes[1].size / BSIZE + 1) * BSIZE
      requires forall k: nat :: k < |names| ==> HasFile(d, 2 + k, files[k])
      ensures |e.inodes| == NINODES && e.inodes[1].size == |RootBytes(names)| + Padding(|names|) <= LIMIT
      ensures Contents(e, 1) == RootBytes(names) + Zeros(Padding(|names|))
      ensures forall k: nat :: k < |names| ==> HasFile(e, 2 + k, files[k])
    {
      ContentsLength(d, 1);
      PaddingFills(|names|);
      hide HasFile, FileByte, Padding, RootBytes;
      var n := Padding(|names|);
      GrownWithZeros(d, e, n);
      hide Contents, SameBytes;
      forall k: nat | k < |names|
        ensures HasFile(e, 2 + k, files[k])
      {
        FileStays(d, e, 1, 2 + k, files[k]);
      }
    }

    static lemma GrownWithZeros(d: Disk, e: Disk, n: nat)
      requires 1 < |d.inodes| && 1 < |e.inodes| && SameBytes(d, e, 1) && ZeroFrom(d, 1, d.inodes[1].size)
      requires e.inodes[1].size == d.inodes[1].size + n <= LIMIT
      ensures Contents(e, 1) == Contents(d, 1) + Zeros(n)
    {
      hide FileByte;
    }

    /** There are inodes and blocks enough for the files from block `first` on, and none is too large. */
    static ghost predicate Fits(files: seq<seq<Byte>>, first: nat) {
      && |files| + 2 <= NINODES && first + BlocksUpTo(files, |files|) <= FSSIZE
      && forall k: nat :: k < |files| ==> |files[k]| <= LIMIT
    }

    /** The root directory with its dots. */
    method MakeRoot(names: seq<seq<Byte>>, files: seq<seq<Byte>>) returns (ok: bool)
      requires Valid() && freeinode == 1 && |names| == |files|
      modifies this
      ensures ok <==> old(freeblock) + BlocksUpTo(files, 0) <= FSSIZE
      ensures ok ==> HasFiles(names, files, 0) && freeblock == old(freeblock) + BlocksUpTo(files, 0)
    {
      hide Owned, Compact, Contents, HasFile, OthersSame;
      var rootino := Ialloc(T_DIR);
      EmptyContents(Planned(), 1);
      ok := Iappend(1, Record(1, Links.DOT + [0]));
      if !ok {
        return;
      }
      SizeFits(Planned(), 1);
      ok := Iappend(1, Record(1, Links.DOTDOT + [0]));
      if !ok {
        return;
      }
      SizeFits(Planned(), 1);
      assert names[..0] == [];
    }

    /** The root directory, and the loop of `main` over the files. */
    method Fill(names: seq<seq<Byte>>, files: seq<seq<Byte>>) returns (ok: bool)
      requires Valid() && freeinode == 1 && |names| == |files| &&
                forall k: nat :: k < |names| ==> Readable(names[k], DIRSIZ)
      modifies this
      ensures ok <==> Fits(files, old(freeblock))
      ensures ok ==> HasFiles(names, files, |names|) && freeblock == old(freeblock) + BlocksUpTo(files, |files|)
    {
      hide Owned, Compact, Contents, HasFile, BlocksUpTo;
      BlocksUpToGrows(files, 0, |files|);
      ok := MakeRoot(names, files);
      if !ok {
        return;
      }
      for k := 0 to |names|
        invariant HasFiles(names, files, k) && freeblock == old(freeblock) + BlocksUpTo(files, k)
        invariant forall j: nat :: j < k ==> |files[j]| <= LIMIT
      {
        assert freeinode <= NINODES;
        BlocksUpToGrows(files, k + 1, |files|);
        ok := AddFile(names, files, k, old(freeblock));
        if !ok {
          return;
        }
      }
      ok := true;
    }

    /** `main`: a root directory with its dots, then the files, entered in the root by name. False stops, exactly when
    the files do not fit. The image holds a tree in order if the names are good; its root has no hole exactly if the
    entries do not fill its blocks. */
    method Build(names: seq<seq<Byte>>, files: seq<seq<Byte>>) returns (ok: bool)
      requires Valid() && freeinode == 1 && |names| == |files| &&
                forall k: nat :: k < |names| ==> Readable(names[k], DIRSIZ)
      modifies this
      ensures ok <==> Fits(files, old(freeblock))
      ensures ok ==>
                && Owned(Disk(NMETA, bitmap, blocks, inodes), owner) && |inodes| == NINODES
                && (forall k: nat :: k < |names| ==> HasFile(Planned(), 2 + k, files[k]))
                && inodes[1].typ == T_DIR && inodes[1].nlink == 1 && |names| + 2 <= NINODES
                && (forall i: nat :: i == 0 || |names| + 2 <= i < NINODES ==> inodes[i] == NO_INODE)
                && inodes[1].size == |RootBytes(names)| + Padding(|names|) <= LIMIT
                && Contents(Planned(), 1) == RootBytes(names) + Zeros(Padding(|names|))
                && (NoHoles(Planned(), 1) <==> |names| % 32 != 30)
                && Disk(NMETA, bitmap, blocks, inodes) == Planned()
                && TreeOn(Planned()) == Links.Padded(TreeOf(names), 1, Padding(|names|) / DIRENT)
                && (GoodNames(names) ==> Links.TreeOk(TreeOn(Planned())))
    {
      ok := Fill(names, files);
      if !ok {
        return;
      }
      hide Owned, Compact, Contents, HasFile, RootBytes;
      assert names[..|names|] == names;
      ghost var d := Planned();
      ContentsLength(d, 1);
      SizeFits(d, 1);
      PaddingFills(|names|);
      hide TreeOn, Links.Padded, Links.TreeOk, Padding, NoHoles, HasFiles;
      RoundRoot(1);
      RoundKeeps(d, Planned(), names, files);
      BuiltTree(Planned(), names, files);
      if GoodNames(names) {
        PaddedTreeIsOk(names, Padding(|names|) / DIRENT);
      }
      Balloc(freeblock);
    }
  }

  const T_DIR := 1
  const T_FILE := 2

  /** The directory entry of inode `inum`, with the name cut and padded as `strncpy` does. */
  function Record(inum: nat, name: seq<Byte>): (b: seq<Byte>)
    requires inum < INUM_RANGE
    ensures |b| == DIRENT && Decode(b) == Dirent(inum, Cut(name, DIRSIZ))
  {
    CutOfPadded(name, DIRSIZ, DIRSIZ);
    DirentRoundTrip(inum, Padded(Cut(name, DIRSIZ), DIRSIZ));
    Encode(inum, Padded(Cut(name, DIRSIZ), DIRSIZ))
  }

  /** The root directory: its dots, and an entry for each file in order. */
  function RootBytes(names: seq<seq<Byte>>): (b: seq<Byte>)
    requires |names| + 2 <= INUM_RANGE
    ensures |b| == DIRENT * (|names| + 2)
  {
    if names == [] then Record(1, Links.DOT + [0]) + Record(1, Links.DOTDOT + [0])
    else RootBytes(names[..|names| - 1]) + Record(1 + |names|, names[|names| - 1])
  }

  // ----- the tree

  function Zeros(n: nat): (b: seq<Byte>)
    ensures |b| == n
  {
    seq(n, _ => 0)
  }

  /** The bytes from the end of the root directory with `n` files to the size it is rounded up to. */
  function Padding(n: nat): nat {
    BSIZE - DIRENT * (n + 2) % BSIZE
  }

  lemma PaddingFills(n: nat)
    requires n + 2 <= NINODES
    ensures var size := DIRENT * (n + 2); size + Padding(n) == (size / BSIZE + 1) * BSIZE <= LIMIT
    ensures Padding(n) % DIRENT == 0 && (DIRENT * (n + 2) % BSIZE != 0 <==> n % 32 != 30)
  {
    var q, r := (n + 2) / 32, (n + 2) % 32;
    Quotient(DIRENT * (n + 2), q, DIRENT * r);
    assert Padding(n) == BSIZE - DIRENT * r == DIRENT * (32 - r);
    assert q <= 6;
    assert r == 0 <==> n % 32 == 30;
    Multiple(32 - r);
  }

  lemma Quotient(x: nat, q: nat, r: nat)
    requires x == BSIZE * q + r && r < BSIZE
    ensures x / BSIZE == q && x % BSIZE == r
  {
  }

  lemma Multiple(k: nat)
    ensures DIRENT * k % DIRENT == 0
  {
  }

  lemma {:induction false} ZeroRecords(bytes: seq<Byte>, k: nat, n: nat)
    requires |bytes| == DIRENT * k
    ensures Entries(bytes + Zeros(DIRENT * n)) == Entries(bytes) + seq(n, _ => Links.NO_ENTRY)
  {
    if n == 0 {
      assert bytes + Zeros(0) == bytes;
    } else {
      ZeroRecords(bytes, k, n - 1);
      var front, last := bytes + Zeros(DIRENT * (n - 1)), Zeros(DIRENT);
      assert bytes + Zeros(DIRENT * n) == front + last;
      AppendRecord(front, k + n - 1, last);
      assert Decode(last) == Links.NO_ENTRY;
      assert seq(n, _ => Links.NO_ENTRY) == seq(n - 1, _ => Links.NO_ENTRY) + [Links.NO_ENTRY];
    }
  }

  lemma FileOn(d: Disk, names: seq<seq<Byte>>, files: seq<seq<Byte>>, i: nat)
    requires |names| == |files| && |names| + 2 <= NINODES == |d.inodes| && i < NINODES && i != 1
    requires forall j: nat :: j == 0 || |names| + 2 <= j < NINODES ==> d.inodes[j] == NO_INODE
    requires forall k: nat :: k < |names| ==> Image.HasFile(d, 2 + k, files[k])
    ensures TreeOn(d).typ[i] == (if 0 < i < |names| + 2 then T_FILE else 0) && TreeOn(d).dirs[i] == []
    ensures TreeOn(d).nlink[i] == if 0 < i < |names| + 2 then 1 else 0
  {
    if 2 <= i < |names| + 2 {
      assert Image.HasFile(d, 2 + (i - 2), files[i - 2]);
    }
  }

  lemma RootOn(d: Disk, names: seq<seq<Byte>>)
    requires |names| + 2 <= NINODES && 1 < |d.inodes| && d.inodes[1].typ == T_DIR && d.inodes[1].size <= LIMIT
    requires Contents(d, 1) == RootBytes(names) + Zeros(Padding(|names|))
    ensures TreeOn(d).dirs[1] == Entries(RootBytes(names)) + seq(Padding(|names|) / DIRENT, _ => Links.NO_ENTRY)
  {
    PaddingFills(|names|);
    var n := Padding(|names|) / DIRENT;
    assert DIRENT * n == Padding(|names|);
    EntriesAre(d, 1);
    hide RootBytes, Entries, Zeros, Padding, Contents, TreeOn;
    ZeroRecords(RootBytes(names), |names| + 2, n);
  }

  /** The image that `main` leaves holds the tree of the names, the root padded with free records. */
  lemma BuiltTree(d: Disk, names: seq<seq<Byte>>, files: seq<seq<Byte>>)
    requires |names| == |files| && |names| + 2 <= NINODES == |d.inodes|
    requires forall i: nat :: i == 0 || |names| + 2 <= i < NINODES ==> d.inodes[i] == NO_INODE
    requires forall k: nat :: k < |names| ==> Image.HasFile(d, 2 + k, files[k])
    requires d.inodes[1].typ == T_DIR && d.inodes[1].nlink == 1 && d.inodes[1].size <= LIMIT
    requires Contents(d, 1) == RootBytes(names) + Zeros(Padding(|names|))
    ensures TreeOn(d) == Links.Padded(TreeOf(names), 1, Padding(|names|) / DIRENT)
  {
    hide RootBytes, Entries, Contents, TreeOn, Zeros, TreeOf, Links.Padded, Padding, Image.HasFile;
    var n := Padding(|names|) / DIRENT;
    TypesOn(d, 1);
    RootOn(d, names);
    PaddedSize(names, n);
    var t, e := TreeOn(d), Links.Padded(TreeOf(names), 1, n);
    forall i: nat | i < NINODES
      ensures SameNode(t, e, i)
    {
      PaddedNode(names, n, i);
      if i != 1 {
        FileOn(d, names, files, i);
      }
    }
    SameNodes(t, e);
  }

  predicate SameNode(t: Links.Tree, e: Links.Tree, i: nat) {
    && i < |t.typ| && i < |t.nlink| && i < |t.dirs| && i < |e.typ| && i < |e.nlink| && i < |e.dirs|
    && t.typ[i] == e.typ[i] && t.nlink[i] == e.nlink[i] && t.dirs[i] == e.dirs[i]
  }

  lemma SameNodes(t: Links.Tree, e: Links.Tree)
    requires |t.typ| == |t.nlink| == |t.dirs| == |e.typ| == |e.nlink| == |e.dirs| == NINODES
    requires forall i: nat :: i < NINODES ==> SameNode(t, e, i)
    ensures t == e
  {
    forall i: nat | i < NINODES
      ensures t.typ[i] == e.typ[i] && t.nlink[i] == e.nlink[i] && t.dirs[i] == e.dirs[i]
    {
      assert SameNode(t, e, i);
    }
    assert t.typ == e.typ && t.nlink == e.nlink && t.dirs == e.dirs;
  }

  lemma PaddedSize(names: seq<seq<Byte>>, n: nat)
    requires |names| + 2 <= NINODES
    ensures var e := Links.Padded(TreeOf(names), 1, n); |e.typ| == |e.nlink| == |e.dirs| == NINODES
  {
  }

  lemma PaddedNode(names: seq<seq<Byte>>, n: nat, i: nat)
    requires |names| + 2 <= NINODES && i < NINODES
    ensures var e := Links.Padded(TreeOf(names), 1, n);
      && i < |e.typ| && i < |e.nlink| && i < |e.dirs|
      && e.typ[i] == (if i == 1 then T_DIR else if 0 < i < |names| + 2 then T_FILE else 0)
      && e.nlink[i] == (if 0 < i < |names| + 2 then 1 else 0)
      && e.dirs[i] == if i == 1 then Entries(RootBytes(names)) + seq(n, _ => Links.NO_ENTRY) else []
  {
    hide RootBytes, Entries;
  }

  /** That tree is in order. */
  lemma PaddedTreeIsOk(names: seq<seq<Byte>>, n: nat)
    requires GoodNames(names)
    ensures Links.TreeOk(Links.Padded(TreeOf(names), 1, n))
  {
    MkfsTreeIsOk(names);
    hide RootBytes, Entries, Links.TreeOk;
    Links.PaddingKeepsTree(TreeOf(names), 1, n);
  }

  /** Thirty names of one letter each. */
  function ThirtyNames(): (names: seq<seq<Byte>>)
    ensures |names| == 30 && forall k: nat :: k < 30 ==> names[k] == [65 + k, 0]
  {
    seq(30, k requires 0 <= k < 30 => var c: Byte := 65 + k; [c, 0])
  }

  /** Good names of which the rounded root directory has a hole: it fills a block already. */
  lemma ThirtyNamesLeaveAHole()
    ensures GoodNames(ThirtyNames()) && forall k: nat :: k < 30 ==> Readable(ThirtyNames()[k], DIRSIZ)
    ensures |RootBytes(ThirtyNames())| == BSIZE && Padding(|ThirtyNames()|) == BSIZE
  {
    var names := ThirtyNames();
    forall k: nat | k < 30
      ensures Cut(names[k], DIRSIZ) == [65 + k] && Readable(names[k], DIRSIZ)
    {
      var m: nat := DIRSIZ - 1;
      assert names[k][1] == 0 && Cut(names[k][1..], m) == [];
    }
    assert forall k: nat :: k < 30 ==> Cut(names[k], DIRSIZ)[0] == 65 + k;
    assert |Links.DOTDOT| == 2 && Links.DOT[0] == 46;
  }

  /** The names as entries hold them: none is a dot name and no two are the same. */
  ghost predicate GoodNames(names: seq<seq<Byte>>) {
    && |names| + 2 <= NINODES
    && (forall k: nat :: k < |names| ==> Cut(names[k], DIRSIZ) != Links.DOT && Cut(names[k], DIRSIZ) != Links.DOTDOT)
    && forall j: nat, k: nat :: j < k < |names| ==> Cut(names[j], DIRSIZ) != Cut(names[k], DIRSIZ)
  }

  /** The tree of an image: the root directory, and one link to each file. */
  function TreeOf(names: seq<seq<Byte>>): (t: Links.Tree)
    requires |names| + 2 <= NINODES
    ensures |t.typ| == |t.nlink| == |t.dirs| == NINODES
  {
    var used := |names| + 2;
    Links.Tree(seq(NINODES, i => if i == 1 then T_DIR else if 0 < i < used then T_FILE else 0),
               seq(NINODES, i => if 0 < i < used then 1 else 0),
               seq(NINODES, i => if i == 1 then Entries(RootBytes(names)) else []))
  }

  lemma RootEntries(names: seq<seq<Byte>>)
    requires 0 < |names| && |names| + 2 <= NINODES
    ensures var n := |names| - 1;
      Entries(RootBytes(names)) == Entries(RootBytes(names[..n])) + [Dirent(1 + |names|, Cut(names[n], DIRSIZ))]
  {
    hide RootBytes, Record, Decode, Cut, Entries, EntryAt;
    RootGrows(names);
    var a := RootBytes(names[..|names| - 1]);
    var b := Record(1 + |names|, names[|names| - 1]);
    assert |a| == DIRENT * (|names| + 1);
    AppendRecord(a, |names| + 1, b);
  }

  lemma RootGrows(names: seq<seq<Byte>>)
    requires 0 < |names| && |names| + 2 <= NINODES
    ensures RootBytes(names) == RootBytes(names[..|names| - 1]) + Record(1 + |names|, names[|names| - 1])
  {
  }

  lemma AppendRecord(a: seq<Byte>, k: nat, b: seq<Byte>)
    requires |a| == DIRENT * k && |b| == DIRENT
    ensures Entries(a + b) == Entries(a) + [Decode(b)]
  {
    hide Decode, Entries;
    assert Spliced(a, |a|, b) == a + b;
    EntriesAfterWrite(a, k, b);
  }

  lemma DotEntries()
    ensures Entries(RootBytes([])) == [Dirent(1, Links.DOT), Dirent(1, Links.DOTDOT)]
  {
    var a, b := Record(1, Links.DOT + [0]), Record(1, Links.DOTDOT + [0]);
    Links.CutDots();
    assert EntryAt(a + b, 0) == Decode(a) by {
      assert (a + b)[0..DIRENT] == a;
    }
    assert EntryAt(a + b, 1) == Decode(b) by {
      assert (a + b)[DIRENT..DIRENT + DIRENT] == b;
    }
  }

  /** The entries of the root: the dots, then the files in order. */
  lemma {:induction false} RootEntryAt(names: seq<seq<Byte>>, k: nat)
    requires |names| + 2 <= NINODES && k < |names| + 2
    ensures |Entries(RootBytes(names))| == |names| + 2
    ensures Entries(RootBytes(names))[k] ==
              if k == 0 then Dirent(1, Links.DOT) else if k == 1 then Dirent(1, Links.DOTDOT)
              else Dirent(k, Cut(names[k - 2], DIRSIZ))
  {
    if names == [] {
      DotEntries();
    } else {
      RootEntries(names);
      if k < |names| + 1 {
        RootEntryAt(names[..|names| - 1], k);
      } else {
        RootEntryAt(names[..|names| - 1], 0);
      }
    }
  }

  /** The image that `mkfs` builds from good names has a tree in order, with right link counts. */
  lemma {:induction false} MkfsTreeIsOk(names: seq<seq<Byte>>)
    requires GoodNames(names)
    ensures Links.TreeOk(TreeOf(names))
  {
    if names == [] {
      RootTreeIsOk();
    } else {
      var n := |names| - 1;
      var front := names[..n];
      var name := Cut(names[n], DIRSIZ);
      MkfsTreeIsOk(front);
      var t := TreeOf(front);
      hide Links.TreeOk, RootBytes, Entries;
      NameIsNew(names, front, name);
      Links.CreateKeepsTree(t, 1, name, n + 2, T_FILE, n + 2);
      TreeGrows(names, front, name);
    }
  }

  lemma NameIsNew(names: seq<seq<Byte>>, front: seq<seq<Byte>>, name: seq<Byte>)
    requires GoodNames(names) && names != [] && front == names[..|names| - 1] && name == Cut(names[|names| - 1], DIRSIZ)
    ensures var es := Entries(RootBytes(front)); Absent(es, name) && FreeAt(es, |names| + 1) && |es| == |names| + 1
  {
    hide RootBytes, Entries, Cut;
    RootEntryAt(front, 0);
    var es := Entries(RootBytes(front));
    forall j: nat | j < |es|
      ensures !Names(es[j], name) && es[j].inum != 0
    {
      RootEntryAt(front, j);
    }
  }

  lemma TreeGrows(names: seq<seq<Byte>>, front: seq<seq<Byte>>, name: seq<Byte>)
    requires |names| + 2 <= NINODES && names != [] && front == names[..|names| - 1]
    requires name == Cut(names[|names| - 1], DIRSIZ) && |TreeOf(front).dirs[1]| == |names| + 1
    ensures TreeOf(names) == Links.Created(TreeOf(front), 1, name, |names| + 1, T_FILE, |names| + 1)
  {
    RootEntries(names);
    hide RootBytes, Entries, Cut;
    var t, e := TreeOf(names), Links.Created(TreeOf(front), 1, name, |names| + 1, T_FILE, |names| + 1);
    assert t.typ == e.typ && t.nlink == e.nlink && t.dirs == e.dirs;
  }

  lemma RootTreeIsOk()
    ensures Links.TreeOk(TreeOf([]))
  {
    DotEntries();
    var t, e := TreeOf([]), Links.EmptyRoot(NINODES);
    assert t.typ == e.typ && t.nlink == e.nlink && t.dirs == e.dirs;
    Links.EmptyRootIsOk(NINODES);
  }
}
