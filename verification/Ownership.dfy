/** Which inode slot owns which disk block, and the bytes a file's slots spell.

A slot is a place a block number is kept: direct addresses 0..11 of an inode, its indirect pointer (slot 12), and the
128 words of its indirect block (slots 13..140). A disk is well owned when a block is marked in use exactly when it is
metadata or named by one slot, and by no second one. A ghost map from blocks to slots is the witness of that.
 */
module Ownership {
  import opened Blocks

  const NDIRECT := 12
  const NINDIRECT := 128
  const MAXFILE := NDIRECT + NINDIRECT
  const LIMIT := MAXFILE * BSIZE

  /** The slot of the indirect pointer, and the number of slots of an inode. */
  const INDIRECT := 12
  const NSLOTS := 141

  type Addrs = s: seq<nat> | |s| == INDIRECT + 1 witness [0, 0, 0, 0, 0, 0, 0, 0, 0, 0, 0, 0, 0]

  const NO_ADDRS: Addrs := [0, 0, 0, 0, 0, 0, 0, 0, 0, 0, 0, 0, 0]

  datatype Dinode = Dinode(typ: int, major: int, minor: int, nlink: int, size: nat, addrs: Addrs)

  datatype Slot = Slot(inum: nat, k: nat)

  /** What inode, bitmap and data blocks hold: blocks below `nmeta` are metadata, block 0 is never named by a slot. */
  datatype Disk = Disk(nmeta: nat, bitmap: seq<bool>, blocks: seq<Block>, inodes: seq<Dinode>)

  type Owner = map<nat, Slot>

  predicate Shape(d: Disk) {
    |d.bitmap| == |d.blocks| < WORD_RANGE && 0 < d.nmeta <= |d.blocks|
  }

  predicate IsSlot(d: Disk, s: Slot) {
    s.inum < |d.inodes| && s.k < NSLOTS
  }

  /** The block number in slot `k` of an inode with addresses `a`; 0 is an empty slot. */
  function Entry(blocks: seq<Block>, a: Addrs, k: nat): nat
    requires k < NSLOTS
  {
    if k <= INDIRECT then a[k]
    else if a[INDIRECT] == 0 || a[INDIRECT] >= |blocks| then 0
    else WordAt(blocks[a[INDIRECT]], k - 13)
  }

  function Ref(d: Disk, s: Slot): nat
    requires IsSlot(d, s)
  {
    Entry(d.blocks, d.inodes[s.inum].addrs, s.k)
  }

  ghost predicate SlotOk(d: Disk, owner: Owner, s: Slot)
    requires IsSlot(d, s)
  {
    var b := Ref(d, s);
    b != 0 ==> d.nmeta <= b < |d.blocks| && b in owner && owner[b] == s
  }

  ghost predicate BlockOk(d: Disk, owner: Owner, b: nat)
    requires b < |d.bitmap|
  {
    && (d.bitmap[b] <==> b < d.nmeta || b in owner)
    && (b in owner ==> b >= d.nmeta && IsSlot(d, owner[b]) && Ref(d, owner[b]) == b)
  }

  ghost predicate Owned(d: Disk, owner: Owner) {
    && Shape(d)
    && (forall s: Slot :: IsSlot(d, s) ==> SlotOk(d, owner, s))
    && (forall b: nat :: b < |d.bitmap| ==> BlockOk(d, owner, b))
    && (forall b: nat :: b in owner ==> b < |d.blocks|)
    && (forall i: nat :: i < |d.inodes| && d.inodes[i].typ == 0 ==> d.inodes[i].addrs == NO_ADDRS)
  }

  lemma OwnedShape(d: Disk, owner: Owner)
    requires Owned(d, owner)
    ensures Shape(d)
  {
  }

  lemma FreeHasNoAddrs(d: Disk, owner: Owner, i: nat)
    requires Owned(d, owner) && i < |d.inodes| && d.inodes[i].typ == 0
    ensures d.inodes[i].addrs == NO_ADDRS
  {
  }

  // ----- free blocks

  function FreeCount(bitmap: seq<bool>): nat {
    if bitmap == [] then 0 else (if bitmap[0] then 0 else 1) + FreeCount(bitmap[1..])
  }

  lemma {:induction false} FreeCountTaken(bitmap: seq<bool>, b: nat)
    requires b < |bitmap| && !bitmap[b]
    ensures FreeCount(bitmap) > 0 && FreeCount(bitmap[b := true]) == FreeCount(bitmap) - 1
  {
    if b == 0 {
      assert bitmap[0 := true][1..] == bitmap[1..];
    } else {
      assert bitmap[b := true][1..] == bitmap[1..][b - 1 := true];
      FreeCountTaken(bitmap[1..], b - 1);
    }
  }

  lemma {:induction false} NoneFree(bitmap: seq<bool>)
    ensures FreeCount(bitmap) == 0 <==> forall c: nat :: c < |bitmap| ==> bitmap[c]
  {
    if bitmap != [] {
      NoneFree(bitmap[1..]);
      if FreeCount(bitmap) == 0 {
        forall c: nat | c < |bitmap|
          ensures bitmap[c]
        {
          assert c > 0 ==> bitmap[c] == bitmap[1..][c - 1];
        }
      } else if bitmap[0] {
        var c: nat :| c < |bitmap[1..]| && !bitmap[1..][c];
        assert !bitmap[c + 1];
      }
    }
  }

  /** How many blocks `bmap` has to allocate for block `bn` of a file: the block itself, and the indirect block. */
  function Need(d: Disk, i: nat, bn: nat): nat
    requires i < |d.inodes| && bn < MAXFILE
  {
    (if HasBlock(d, i, bn) then 0 else 1) + if bn >= NDIRECT && d.inodes[i].addrs[INDIRECT] == 0 then 1 else 0
  }

  /** There are free blocks enough for the one that holds byte `off` of a file. */
  predicate HasRoom(d: Disk, i: nat, off: nat)
    requires i < |d.inodes|
  {
    off / BSIZE < MAXFILE && FreeCount(d.bitmap) >= Need(d, i, off / BSIZE)
  }

  lemma NeedIndirect(d: Disk, i: nat, bn: nat)
    requires i < |d.inodes| && NDIRECT <= bn < MAXFILE
    ensures d.inodes[i].addrs[INDIRECT] == 0 ==> Need(d, i, bn) == 2 && !HasBlock(d, i, bn)
    ensures d.inodes[i].addrs[INDIRECT] != 0 ==> Need(d, i, bn) == if HasBlock(d, i, bn) then 0 else 1
    ensures HasBlock(d, i, bn) <==> Ref(d, Slot(i, SlotOf(bn))) != 0
  {
  }

  /** A block is marked in use exactly when it is metadata or some slot names it, and no two slots name one block. */
  lemma OwnedMeansNamedOnce(d: Disk, owner: Owner)
    requires Owned(d, owner)
    ensures forall b: nat :: b < |d.bitmap| ==>
              (d.bitmap[b] <==> b < d.nmeta || exists s: Slot :: IsSlot(d, s) && Ref(d, s) == b)
    ensures forall s: Slot, t: Slot :: IsSlot(d, s) && IsSlot(d, t) && Ref(d, s) == Ref(d, t) != 0 ==> s == t
  {
    hide Ref;
    forall b: nat | b < |d.bitmap|
      ensures d.bitmap[b] <==> b < d.nmeta || exists s: Slot :: IsSlot(d, s) && Ref(d, s) == b
    {
      assert BlockOk(d, owner, b);
      if s: Slot :| IsSlot(d, s) && Ref(d, s) == b && b >= d.nmeta {
        assert SlotOk(d, owner, s);
      }
    }
    forall s: Slot, t: Slot | IsSlot(d, s) && IsSlot(d, t) && Ref(d, s) == Ref(d, t) != 0
      ensures s == t
    {
      assert SlotOk(d, owner, s) && SlotOk(d, owner, t);
    }
  }

  /** The slot that holds block `bn` of a file. */
  function SlotOf(bn: nat): (k: nat)
    requires bn < MAXFILE
    ensures k < NSLOTS && k != INDIRECT && (bn < NDIRECT <==> k < INDIRECT)
  {
    if bn < NDIRECT then bn else bn + 1
  }

  /** Byte `p` of file `i`; a hole reads as zero. */
  function FileByte(d: Disk, i: nat, p: nat): Byte
    requires i < |d.inodes| && p < LIMIT
  {
    var b := Ref(d, Slot(i, SlotOf(p / BSIZE)));
    if b == 0 || b >= |d.blocks| then 0 else d.blocks[b][p % BSIZE]
  }

  ghost predicate SameBytes(d: Disk, e: Disk, i: nat)
    requires i < |d.inodes| && i < |e.inodes|
  {
    forall p: nat :: p < LIMIT ==> FileByte(e, i, p) == FileByte(d, i, p)
  }

  /** The part of a file below its size has no hole. */
  ghost predicate NoHoles(d: Disk, i: nat)
    requires i < |d.inodes|
  {
    d.inodes[i].size <= LIMIT && forall bn: nat :: bn < MAXFILE && bn * BSIZE < d.inodes[i].size ==> HasBlock(d, i, bn)
  }

  predicate HasBlock(d: Disk, i: nat, bn: nat)
    requires i < |d.inodes| && bn < MAXFILE
  {
    Ref(d, Slot(i, SlotOf(bn))) != 0
  }

  // ----- taking a block

  /** The effect of `balloc` on the disk. */
  function Taken(d: Disk, b: nat): (e: Disk)
    requires Shape(d) && b < |d.bitmap|
    ensures Shape(e) && |e.blocks| == |d.blocks|
  {
    d.(bitmap := d.bitmap[b := true], blocks := d.blocks[b := ZERO_BLOCK])
  }

  /** Slot `s` is made to name block `b`. */
  function Named(d: Disk, s: Slot, b: nat): (e: Disk)
    requires Shape(d) && IsSlot(d, s) && b < |d.blocks|
    requires s.k > INDIRECT ==> d.inodes[s.inum].addrs[INDIRECT] < |d.blocks|
    ensures Shape(e) && |e.blocks| == |d.blocks| && |e.inodes| == |d.inodes|
  {
    var a := d.inodes[s.inum].addrs;
    if s.k <= INDIRECT then
      d.(inodes := d.inodes[s.inum := d.inodes[s.inum].(addrs := a[s.k := b])])
    else
      d.(blocks := d.blocks[a[INDIRECT] := SetWord(d.blocks[a[INDIRECT]], s.k - 13, b)])
  }

  /** A slot that may be given a fresh block: it is empty, and its indirect block is there. */
  predicate Fillable(d: Disk, owner: Owner, s: Slot, b: nat) {
    && Shape(d) && IsSlot(d, s) && b < |d.bitmap| && !d.bitmap[b]
    && d.inodes[s.inum].typ != 0 && Ref(d, s) == 0
    && (s.k > INDIRECT ==> d.inodes[s.inum].addrs[INDIRECT] != 0)
  }

  ghost function Filled(d: Disk, s: Slot, b: nat): Disk
    requires Shape(d) && IsSlot(d, s) && b < |d.bitmap|
    requires s.k > INDIRECT ==> d.inodes[s.inum].addrs[INDIRECT] < |d.blocks|
  {
    Named(Taken(d, b), s, b)
  }

  /** An indirect pointer of a well-owned disk names a block that holds no other role. */
  lemma PointerIsOwned(d: Disk, owner: Owner, i: nat)
    requires Owned(d, owner) && i < |d.inodes| && d.inodes[i].addrs[INDIRECT] != 0
    ensures var b := d.inodes[i].addrs[INDIRECT];
      d.nmeta <= b < |d.blocks| && d.bitmap[b] && b in owner && owner[b] == Slot(i, INDIRECT)
  {
    assert SlotOk(d, owner, Slot(i, INDIRECT));
    assert BlockOk(d, owner, d.inodes[i].addrs[INDIRECT]);
  }

  /** Filling changes the reference of that slot alone. */
  lemma RefAfterFill(d: Disk, owner: Owner, s: Slot, b: nat, t: Slot)
    requires Owned(d, owner) && Fillable(d, owner, s, b) && IsSlot(d, t)
    requires s.k > INDIRECT ==> d.inodes[s.inum].addrs[INDIRECT] < |d.blocks|
    ensures Ref(Filled(d, s, b), t) == if t == s then b else Ref(d, t)
  {
    hide WordAt, SetWord;
    if d.inodes[t.inum].addrs[INDIRECT] != 0 {
      PointerIsOwned(d, owner, t.inum);
    }
    if s.k > INDIRECT {
      PointerIsOwned(d, owner, s.inum);
      if t.k > INDIRECT {
        WordAfterSet(d.blocks[d.inodes[s.inum].addrs[INDIRECT]], s.k - 13, b, t.k - 13);
      }
    } else if s.k == INDIRECT && t.inum == s.inum && t.k > INDIRECT {
      ZeroBlockWords(t.k - 13);
    }
  }

  lemma FillKeepsOwned(d: Disk, owner: Owner, s: Slot, b: nat)
    requires Owned(d, owner) && Fillable(d, owner, s, b)
    requires s.k > INDIRECT ==> d.inodes[s.inum].addrs[INDIRECT] < |d.blocks|
    ensures Owned(Filled(d, s, b), owner[b := s])
  {
    var e, now := Filled(d, s, b), owner[b := s];
    assert BlockOk(d, owner, b);
    FillShape(d, s, b);
    hide Filled, Ref;
    forall t: Slot | IsSlot(e, t)
      ensures SlotOk(e, now, t)
    {
      RefAfterFill(d, owner, s, b, t);
      assert SlotOk(d, owner, t);
    }
    forall c: nat | c < |e.bitmap|
      ensures BlockOk(e, now, c)
    {
      assert BlockOk(d, owner, c);
      if c == b {
        RefAfterFill(d, owner, s, b, s);
      } else if c in owner {
        RefAfterFill(d, owner, s, b, owner[c]);
      }
    }
  }

  lemma FillShape(d: Disk, s: Slot, b: nat)
    requires Shape(d) && IsSlot(d, s) && b < |d.bitmap| && d.inodes[s.inum].typ != 0
    requires s.k > INDIRECT ==> d.inodes[s.inum].addrs[INDIRECT] < |d.blocks|
    ensures var e := Filled(d, s, b);
      && Shape(e) && e.nmeta == d.nmeta && e.bitmap == d.bitmap[b := true]
      && |e.inodes| == |d.inodes|
      && (forall i: nat :: i < |d.inodes| ==>
           e.inodes[i].typ == d.inodes[i].typ && e.inodes[i].size == d.inodes[i].size)
      && (forall i: nat :: i < |d.inodes| && i != s.inum ==> e.inodes[i] == d.inodes[i])
  {
  }

  /** A fresh block is zero, and so was the hole it fills: no byte of any file changes. */
  lemma FillKeepsBytes(d: Disk, owner: Owner, s: Slot, b: nat, i: nat)
    requires Owned(d, owner) && Fillable(d, owner, s, b) && i < |d.inodes|
    requires s.k > INDIRECT ==> d.inodes[s.inum].addrs[INDIRECT] < |d.blocks|
    ensures SameBytes(d, Filled(d, s, b), i)
  {
    var e := Filled(d, s, b);
    FillShape(d, s, b);
    forall p: nat | p < LIMIT
      ensures FileByte(e, i, p) == FileByte(d, i, p)
    {
      var t := Slot(i, SlotOf(p / BSIZE));
      RefAfterFill(d, owner, s, b, t);
      FillTouches(d, owner, s, b, t);
    }
  }

  /** The block a data slot names is not one that filling rewrites, unless it is the fresh one. */
  lemma FillTouches(d: Disk, owner: Owner, s: Slot, b: nat, t: Slot)
    requires Owned(d, owner) && Fillable(d, owner, s, b) && IsSlot(d, t) && t.k != INDIRECT
    requires s.k > INDIRECT ==> d.inodes[s.inum].addrs[INDIRECT] < |d.blocks|
    ensures Filled(d, s, b).blocks[b] == ZERO_BLOCK
    ensures var r := Ref(d, t); r != 0 ==> r < |d.blocks| && r != b && Filled(d, s, b).blocks[r] == d.blocks[r]
  {
    hide Ref;
    assert SlotOk(d, owner, t) && BlockOk(d, owner, b);
    var r := Ref(d, t);
    if r != 0 {
      assert BlockOk(d, owner, r);
    }
    if s.k > INDIRECT {
      PointerIsOwned(d, owner, s.inum);
    }
  }

  // ----- writing a data block

  lemma RefAfterWrite(d: Disk, owner: Owner, b: nat, blk: Block, t: Slot)
    requires Owned(d, owner) && b in owner && owner[b].k != INDIRECT && b < |d.blocks| && IsSlot(d, t)
    ensures Ref(d.(blocks := d.blocks[b := blk]), t) == Ref(d, t)
  {
    hide WordAt;
    if d.inodes[t.inum].addrs[INDIRECT] != 0 {
      PointerIsOwned(d, owner, t.inum);
    }
  }

  lemma WriteKeepsOwned(d: Disk, owner: Owner, b: nat, blk: Block)
    requires Owned(d, owner) && b in owner && owner[b].k != INDIRECT && b < |d.blocks|
    ensures Owned(d.(blocks := d.blocks[b := blk]), owner)
  {
    var e := d.(blocks := d.blocks[b := blk]);
    hide Ref;
    forall t: Slot | IsSlot(e, t)
      ensures SlotOk(e, owner, t)
    {
      RefAfterWrite(d, owner, b, blk, t);
      assert SlotOk(d, owner, t);
    }
    forall c: nat | c < |e.bitmap|
      ensures BlockOk(e, owner, c)
    {
      assert BlockOk(d, owner, c);
      if c in owner {
        RefAfterWrite(d, owner, b, blk, owner[c]);
      }
    }
  }

  /** Writing the block of slot `s` changes the bytes that slot spells and no others. */
  lemma ByteAfterWrite(d: Disk, owner: Owner, s: Slot, blk: Block, i: nat, p: nat)
    requires Owned(d, owner) && IsSlot(d, s) && s.k != INDIRECT && Ref(d, s) != 0
    requires i < |d.inodes| && p < LIMIT && Ref(d, s) < |d.blocks|
    ensures FileByte(d.(blocks := d.blocks[Ref(d, s) := blk]), i, p)
         == if s == Slot(i, SlotOf(p / BSIZE)) then blk[p % BSIZE] else FileByte(d, i, p)
  {
    var t := Slot(i, SlotOf(p / BSIZE));
    hide Ref;
    assert SlotOk(d, owner, s) && SlotOk(d, owner, t);
    RefAfterWrite(d, owner, Ref(d, s), blk, t);
  }

  // ----- giving up all blocks of an inode

  ghost function Others(owner: Owner, i: nat): Owner {
    map b: nat | b in owner && owner[b].inum != i :: owner[b]
  }

  /** Every block of inode `i` is free, and the inode names none. */
  ghost predicate IsTruncated(d: Disk, owner: Owner, i: nat, e: Disk) {
    && i < |d.inodes| && Shape(d) && Shape(e)
    && e.nmeta == d.nmeta && |e.bitmap| == |d.bitmap| && e.blocks == d.blocks
    && (forall b: nat :: b < |d.bitmap| ==> (e.bitmap[b] <==> d.bitmap[b] && !(b in owner && owner[b].inum == i)))
    && e.inodes == d.inodes[i := d.inodes[i].(addrs := NO_ADDRS, size := 0)]
  }

  /** Inode `i` is truncated and marked free, and nothing else changes. */
  ghost predicate IsFreed(d: Disk, owner: Owner, i: nat, e: Disk) {
    && i < |d.inodes| && i < |e.inodes| && e.inodes[i].typ == 0
    && IsTruncated(d, owner, i, e.(inodes := e.inodes[i := e.inodes[i].(typ := d.inodes[i].typ)]))
  }

  lemma TruncateKeepsOwned(d: Disk, owner: Owner, i: nat, e: Disk)
    requires Owned(d, owner) && IsTruncated(d, owner, i, e)
    ensures Owned(e, Others(owner, i))
  {
    var now := Others(owner, i);
    forall t: Slot | IsSlot(e, t)
      ensures SlotOk(e, now, t)
    {
      assert SlotOk(d, owner, t);
    }
    forall c: nat | c < |e.bitmap|
      ensures BlockOk(e, now, c)
    {
      assert BlockOk(d, owner, c);
    }
  }

  lemma TruncateKeepsOthers(d: Disk, owner: Owner, i: nat, e: Disk, j: nat)
    requires Owned(d, owner) && IsTruncated(d, owner, i, e) && j < |d.inodes| && j != i
    ensures SameBytes(d, e, j)
  {
  }

  /** The bitmap after the blocks in the slots `gone` of inode `i` were freed. */
  ghost predicate FreedUpTo(d: Disk, owner: Owner, i: nat, gone: set<nat>, now: seq<bool>) {
    && |now| == |d.bitmap|
    && forall b: nat :: b < |now| ==>
         (now[b] <==> d.bitmap[b] && !(b in owner && owner[b].inum == i && owner[b].k in gone))
  }

  lemma NothingFreed(d: Disk, owner: Owner, i: nat)
    ensures FreedUpTo(d, owner, i, {}, d.bitmap)
  {
  }

  /** The next slot's block is still marked in use, so freeing it does not panic, and only its bit is cleared. */
  lemma FreeNext(d: Disk, owner: Owner, i: nat, gone: set<nat>, now: seq<bool>, k: nat)
    requires Owned(d, owner) && IsSlot(d, Slot(i, k)) && k !in gone && FreedUpTo(d, owner, i, gone, now)
    ensures var b := Ref(d, Slot(i, k));
      if b == 0 then FreedUpTo(d, owner, i, gone + {k}, now)
      else b < |now| && now[b] && FreedUpTo(d, owner, i, gone + {k}, now[b := false])
  {
    hide Ref;
    var s := Slot(i, k);
    var b := Ref(d, s);
    assert SlotOk(d, owner, s);
    forall c: nat | c < |now|
      ensures c in owner && owner[c] == s ==> c == b != 0
    {
      assert BlockOk(d, owner, c);
    }
    if b != 0 {
      assert BlockOk(d, owner, b);
    }
  }

  lemma AllFreedIsTruncated(d: Disk, owner: Owner, i: nat, gone: set<nat>, e: Disk)
    requires Owned(d, owner) && i < |d.inodes| && FreedUpTo(d, owner, i, gone, e.bitmap)
    requires forall k: nat :: k < NSLOTS ==> k in gone || Ref(d, Slot(i, k)) == 0
    requires e.nmeta == d.nmeta && e.blocks == d.blocks
    requires e.inodes == d.inodes[i := d.inodes[i].(addrs := NO_ADDRS, size := 0)]
    ensures IsTruncated(d, owner, i, e)
  {
    forall b: nat | b < |d.bitmap| && b in owner && owner[b].inum == i
      ensures owner[b].k in gone
    {
      assert BlockOk(d, owner, b);
    }
  }

  /** Type, link count and size are no part of ownership. */
  lemma MetaKeepsOwned(d: Disk, owner: Owner, i: nat, din: Dinode)
    requires Owned(d, owner) && i < |d.inodes| && din.addrs == d.inodes[i].addrs &&
              (din.typ == 0 ==> din.addrs == NO_ADDRS)
    ensures var e := d.(inodes := d.inodes[i := din]);
      Owned(e, owner) && forall j: nat :: j < |d.inodes| ==> SameBytes(d, e, j)
  {
    var e := d.(inodes := d.inodes[i := din]);
    forall t: Slot | IsSlot(e, t)
      ensures SlotOk(e, owner, t)
    {
      assert SlotOk(d, owner, t);
    }
    forall b: nat | b < |e.bitmap|
      ensures BlockOk(e, owner, b)
    {
      assert BlockOk(d, owner, b);
    }
  }
}
