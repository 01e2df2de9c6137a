/** Blocks, inodes and files: `balloc`, `bfree`, `iupdate`, `bmap`, `itrunc`, `readi`, `writei`, the inode cache with
`ialloc`, `iget`, `ilock` and `iput`, and the chunked `filewrite`.

The fields hold what the newest logged contents of the disk say (that the buffer cache and the log deliver that is
shown where they are modelled), with the bitmap as one flag a block and the inode blocks as a table. A cached inode is
an index into `cache`. The ghost field `logged` collects the block numbers passed to `log_write` in the open
transaction. Panics are the result `None`: the kernel has stopped, and nothing is promised beyond the cause.
 */
module Fs {
  import opened Blocks
  import opened Ownership
  import opened Files
  import Crash = CrashAtomicity

  const T_DIR := 1
  const T_FILE := 2
  const T_DEV := 3

  /** A slot of the inode cache: the device is the one disk, and `din` the copy of the disk inode. */
  datatype Incore = Incore(inum: nat, ref: nat, valid: bool, din: Dinode)

  class FileSystem {
    const nmeta: nat
    const inodestart: nat
    const bmapstart: nat
    var bitmap: seq<bool>
    var blocks: seq<Block>
    var dinodes: seq<Dinode>
    var cache: seq<Incore>
    ghost var owner: Owner
    ghost var logged: set<nat>

    /** The blocks logged by each transaction so far, the open one aside. */
    ghost var transactions: seq<set<nat>>

    /** The file system of a disk, with `n` slots of the inode cache, all free. */
    constructor Mount(d: Disk, inodestart: nat, bmapstart: nat, n: nat, ghost owner: Owner)
      requires Owned(d, owner)
      ensures Idle() && OnDisk() == d && |cache| == n && logged == {} && transactions == []
    {
      nmeta, this.inodestart, this.bmapstart := d.nmeta, inodestart, bmapstart;
      bitmap, blocks, dinodes := d.bitmap, d.blocks, d.inodes;
      cache := seq(n, _ => Incore(0, 0, false, Dinode(0, 0, 0, 0, 0, NO_ADDRS)));
      this.owner, logged, transactions := owner, {}, [];
    }

    function BBlock(b: nat): nat {
      b / BPB + bmapstart
    }

    function IBlock(i: nat): nat {
      i / IPB + inodestart
    }

    /** The blocks that hold the bits of the first `n` blocks. */
    ghost function MapBlocks(n: nat): (r: set<nat>)
      ensures forall b: nat :: b < n ==> BBlock(b) in r
      ensures forall x: nat :: x in r ==> exists b: nat :: b < n && x == BBlock(b)
    {
      if n == 0 then {} else MapBlocks(n - 1) + {BBlock(n - 1)}
    }

    /** At most one for every BPB blocks. */
    lemma MapBlocksAre(n: nat)
      ensures |MapBlocks(n)| <= (n + BPB - 1) / BPB
    {
      var all := BlocksFrom(bmapstart, (n + BPB - 1) / BPB);
      forall x | x in MapBlocks(n)
        ensures x in all
      {
        var b: nat :| b < n && x == BBlock(b);
        assert b / BPB < (n + BPB - 1) / BPB;
      }
      assert all == MapBlocks(n) + (all - MapBlocks(n));
    }

    static ghost function BlocksFrom(lo: nat, n: nat): (r: set<nat>)
      ensures |r| == n && forall x: nat :: x in r <==> lo <= x < lo + n
    {
      if n == 0 then {} else BlocksFrom(lo, n - 1) + {lo + n - 1}
    }

    /** The disk as it is. */
    ghost function OnDisk(): Disk
      reads this
    {
      Disk(nmeta, bitmap, blocks, dinodes)
    }

    /** The disk as the holder of cached inode `ip` sees it: that inode's in-memory copy stands for its disk copy. */
    ghost function View(ip: nat): Disk
      requires ip < |cache| && cache[ip].inum < |dinodes|
      reads this
    {
      Disk(nmeta, bitmap, blocks, dinodes[cache[ip].inum := cache[ip].din])
    }

    /** Inode `ip` is locked, valid and in use, and the disk as its holder sees it is well owned. */
    ghost predicate Held(ip: nat)
      reads this
    {
      ip < |cache| && cache[ip].inum < |dinodes| && cache[ip].din.typ != 0 && Owned(View(ip), owner)
    }

    /** The inode's disk copy is up to date. */
    ghost predicate Synced(ip: nat)
      requires ip < |cache| && cache[ip].inum < |dinodes|
      reads this
    {
      dinodes[cache[ip].inum] == cache[ip].din
    }

    /** Between the two moments the log was only added to, and every block that differs on the disk, bitmap and inode
    blocks included, is in it: nothing gets to the disk but through a transaction. */
    ghost predicate Journaled(was: Disk, logs: set<nat>, now: Disk, logs': set<nat>) {
      && logs <= logs' && |now.bitmap| == |was.bitmap| && |now.blocks| == |was.blocks| && |now.inodes| == |was.inodes|
      && (forall b: nat :: b < |was.bitmap| && now.bitmap[b] != was.bitmap[b] ==> BBlock(b) in logs')
      && (forall b: nat :: b < |was.blocks| && now.blocks[b] != was.blocks[b] ==> b in logs')
      && (forall i: nat :: i < |was.inodes| && now.inodes[i] != was.inodes[i] ==> IBlock(i) in logs')
    }

    lemma JournaledItself()
      ensures Journaled(OnDisk(), logged, OnDisk(), logged)
    {
    }

    /** So it is across two stretches, each journaled. */
    lemma JournaledTwice(a: Disk, la: set<nat>, b: Disk, lb: set<nat>, c: Disk, lc: set<nat>)
      requires Journaled(a, la, b, lb) && Journaled(b, lb, c, lc)
      ensures Journaled(a, la, c, lc)
    {
    }

    // ----- blocks

    /** `bzero` */
    method Bzero(b: nat)
      requires b < |blocks|
      modifies `blocks, `logged
      ensures blocks == old(blocks)[b := ZERO_BLOCK] && logged == old(logged) + {b}
    {
      blocks := blocks[b := ZERO_BLOCK];
      logged := logged + {b};
    }

    /** `balloc` takes the first free block and zeroes it; `None` is the panic "out of blocks", when all are in use. */
    method Balloc() returns (r: Option<nat>)
      requires |bitmap| == |blocks|
      modifies `bitmap, `blocks, `logged
      ensures r == None <==> forall c: nat :: c < |old(bitmap)| ==> old(bitmap)[c]
      ensures r == None <==> FreeCount(old(bitmap)) == 0
      ensures r.Some? ==> FreeCount(bitmap) == FreeCount(old(bitmap)) - 1
      ensures r.Some? ==>
                r.value < |old(bitmap)| && !old(bitmap)[r.value] && forall c: nat :: c < r.value ==> old(bitmap)[c]
      ensures r.Some? ==> bitmap == old(bitmap)[r.value := true] && blocks == old(blocks)[r.value := ZERO_BLOCK]
      ensures r.Some? ==> logged == old(logged) + {BBlock(r.value), r.value}
      ensures r == None ==> bitmap == old(bitmap) && blocks == old(blocks) && logged == old(logged)
      ensures Journaled(old(OnDisk()), old(logged), OnDisk(), logged)
    {
      var b := 0;
      while b < |bitmap|
        invariant bitmap == old(bitmap) && blocks == old(blocks) && logged == old(logged)
        invariant forall c: nat :: c < b && c < |bitmap| ==> bitmap[c]
      {
        var bi := 0;
        while bi < BPB && b + bi < |bitmap|
          invariant bitmap == old(bitmap) && blocks == old(blocks) && logged == old(logged)
          invariant forall c: nat :: c < b + bi && c < |bitmap| ==> bitmap[c]
          invariant bi <= BPB
        {
          if !bitmap[b + bi] {
            FreeCountTaken(bitmap, b + bi);
            bitmap := bitmap[b + bi := true];
            logged := logged + {BBlock(b + bi)};
            Bzero(b + bi);
            return Some(b + bi);
          }
          bi := bi + 1;
        }
        b := b + BPB;
      }
      NoneFree(bitmap);
      return None;
    }

    /** `bfree`; false is the panic "freeing free block". */
    method Bfree(b: nat) returns (ok: bool)
      requires b < |bitmap|
      modifies `bitmap, `logged
      ensures ok <==> old(bitmap)[b]
      ensures bitmap == old(bitmap)[b := false]
      ensures logged == if ok then old(logged) + {BBlock(b)} else old(logged)
      ensures Journaled(old(OnDisk()), old(logged), OnDisk(), logged)
    {
      if !bitmap[b] {
        return false;
      }
      bitmap := bitmap[b := false];
      logged := logged + {BBlock(b)};
      return true;
    }

    // ----- inodes

    /** `iupdate` makes the disk copy the in-memory copy; the holder's view of the disk does not change. */
    method Iupdate(ip: nat)
      requires ip < |cache| && cache[ip].inum < |dinodes|
      modifies `dinodes, `logged
      ensures dinodes == old(dinodes)[cache[ip].inum := cache[ip].din] && Synced(ip)
      ensures View(ip) == old(View(ip)) == OnDisk()
      ensures logged == old(logged) + {IBlock(cache[ip].inum)}
      ensures Journaled(old(OnDisk()), old(logged), OnDisk(), logged)
    {
      dinodes := dinodes[cache[ip].inum := cache[ip].din];
      logged := logged + {IBlock(cache[ip].inum)};
    }

    /** The in-memory inode gets address `b` in slot `k` of its own. */
    method SetAddr(ip: nat, k: nat, b: nat)
      requires ip < |cache| && k <= INDIRECT
      modifies `cache
      ensures cache == old(cache)[ip :=
                old(cache)[ip].(din := old(cache)[ip].din.(addrs := old(cache)[ip].din.addrs[k := b]))]
    {
      var din := cache[ip].din;
      cache := cache[ip := cache[ip].(din := din.(addrs := din.addrs[k := b]))];
    }

    /** Only the addresses of cached inode `ip` differ from before. */
    static ghost predicate OnlyAddrs(was: seq<Incore>, now: seq<Incore>, ip: nat) {
      && ip < |was| && ip < |now|
      && now == was[ip := was[ip].(din := was[ip].din.(addrs := now[ip].din.addrs))]
    }

    /** One empty direct slot, or the indirect pointer, is filled with a new block. */
    method FillAddr(ip: nat, k: nat) returns (r: Option<nat>)
      requires Held(ip) && k <= INDIRECT && cache[ip].din.addrs[k] == 0
      modifies `bitmap, `blocks, `cache, `owner, `logged
      ensures |cache| == |old(cache)| && OnlyAddrs(old(cache), cache, ip)
      ensures r == None ==> forall c: nat :: c < |bitmap| ==> bitmap[c]
      ensures r.Some? ==> Held(ip) && Extends(old(View(ip)), View(ip), cache[ip].inum)
      ensures r.Some? ==> cache[ip].din.addrs[k] == r.value != 0 && logged == old(logged) + {BBlock(r.value), r.value}
      ensures r.Some? ==> cache[ip].din.addrs == old(cache[ip].din.addrs)[k := r.value]
      ensures r.Some? ==> r.value < |blocks| && blocks[r.value] == ZERO_BLOCK
      ensures Journaled(old(OnDisk()), old(logged), OnDisk(), logged)
      ensures r == None <==> FreeCount(old(bitmap)) == 0
      ensures r.Some? ==> FreeCount(bitmap) == FreeCount(old(bitmap)) - 1
      ensures r.Some? ==> OnlySlot(old(View(ip)), View(ip), Slot(cache[ip].inum, k))
    {
      ghost var d := View(ip);
      r := Balloc();
      if r == None {
        return;
      }
      SetAddr(ip, k, r.value);
      ghost var s := Slot(cache[ip].inum, k);
      assert Fillable(d, owner, s, r.value);
      FillExtends(d, owner, s, r.value);
      assert View(ip) == Filled(d, s, r.value);
      owner := owner[r.value := s];
      assert BlockOk(View(ip), owner, r.value);
    }

    /** One empty word of the indirect block is filled with a new block. */
    method FillWord(ip: nat, j: nat) returns (r: Option<nat>)
      requires Held(ip) && j < NINDIRECT && cache[ip].din.addrs[INDIRECT] != 0
      requires Ref(View(ip), Slot(cache[ip].inum, 13 + j)) == 0
      modifies `bitmap, `blocks, `owner, `logged
      ensures r == None ==> forall c: nat :: c < |bitmap| ==> bitmap[c]
      ensures r.Some? ==> Held(ip) && Extends(old(View(ip)), View(ip), cache[ip].inum)
      ensures r.Some? ==> r.value == Ref(View(ip), Slot(cache[ip].inum, 13 + j)) != 0
      ensures r.Some? ==> logged == old(logged) + {BBlock(r.value), r.value, cache[ip].din.addrs[INDIRECT]}
      ensures Journaled(old(OnDisk()), old(logged), OnDisk(), logged)
      ensures r == None <==> FreeCount(old(bitmap)) == 0
      ensures r.Some? ==> FreeCount(bitmap) == FreeCount(old(bitmap)) - 1
      ensures r.Some? ==> OnlySlot(old(View(ip)), View(ip), Slot(cache[ip].inum, 13 + j))
    {
      ghost var d := View(ip);
      var bp := cache[ip].din.addrs[INDIRECT];
      PointerIsOwned(d, owner, cache[ip].inum);
      r := Balloc();
      if r == None {
        return;
      }
      ghost var s := Slot(cache[ip].inum, 13 + j);
      assert Fillable(d, owner, s, r.value);
      FillExtends(d, owner, s, r.value);
      blocks := blocks[bp := SetWord(blocks[bp], j, r.value)];
      logged := logged + {bp};
      assert View(ip) == Filled(d, s, r.value);
      owner := owner[r.value := s];
      assert BlockOk(View(ip), owner, r.value);
    }

    /** The indirect block of a cached inode, if it has one. */
    ghost function Pointer(ip: nat): set<nat>
      requires ip < |cache|
      reads this
    {
      if cache[ip].din.addrs[INDIRECT] == 0 then {} else {cache[ip].din.addrs[INDIRECT]}
    }

    /** The indirect block of a file, allocated if it is missing. */
    method IndirectBlock(ip: nat) returns (r: Option<nat>, ghost maps: set<nat>)
      requires Held(ip)
      modifies `bitmap, `blocks, `cache, `owner, `logged
      ensures OnlyAddrs(old(cache), cache, ip)
      ensures r == None ==> forall c: nat :: c < |bitmap| ==> bitmap[c]
      ensures r.Some? ==> Held(ip) && Extends(old(View(ip)), View(ip), cache[ip].inum)
      ensures r.Some? ==> r.value == cache[ip].din.addrs[INDIRECT] != 0 && r.value < |blocks|
      ensures old(cache[ip].din.addrs[INDIRECT]) != 0 ==>
                r.Some? && unchanged(`bitmap, `blocks, `cache, `owner, `logged)
      ensures r.Some? ==> old(Pointer(ip)) <= Pointer(ip) && logged <= old(logged) + maps + Pointer(ip)
      ensures r.Some? ==> |maps| + |old(Pointer(ip))| <= |Pointer(ip)|
      ensures Journaled(old(OnDisk()), old(logged), OnDisk(), logged)
      ensures r == None <==> old(cache[ip].din.addrs[INDIRECT]) == 0 && FreeCount(old(bitmap)) == 0
      ensures r.Some? ==>
                FreeCount(bitmap) == FreeCount(old(bitmap)) - if old(cache[ip].din.addrs[INDIRECT]) == 0 then 1 else 0
      ensures r.Some? && old(cache[ip].din.addrs[INDIRECT]) == 0 ==> blocks[r.value] == ZERO_BLOCK
      ensures r.Some? ==> SameBlocks(old(View(ip)), View(ip), cache[ip].inum)
    {
      hide Extends, Owned, OnlySlot, HasBlock;
      ghost var i, d := cache[ip].inum, View(ip);
      OwnedShape(View(ip), owner);
      ExtendsItself(View(ip), i);
      maps := {};
      if cache[ip].din.addrs[INDIRECT] == 0 {
        r := FillAddr(ip, INDIRECT);
        if r == None {
          return;
        }
        maps := {BBlock(r.value)};
        SlotFilled(d, View(ip), i, INDIRECT);
      }
      PointerIsOwned(View(ip), owner, i);
      return Some(cache[ip].din.addrs[INDIRECT]), maps;
    }

    /** The block a direct address names, allocated if it is missing. */
    method DirectBlock(ip: nat, bn: nat) returns (r: Option<nat>, ghost maps: set<nat>)
      requires Held(ip) && bn < NDIRECT
      modifies `bitmap, `blocks, `cache, `owner, `logged
      ensures OnlyAddrs(old(cache), cache, ip)
      ensures r == None ==> forall c: nat :: c < |bitmap| ==> bitmap[c]
      ensures r.Some? ==> Held(ip) && Extends(old(View(ip)), View(ip), cache[ip].inum)
      ensures r.Some? ==> r.value == cache[ip].din.addrs[bn] != 0
      ensures old(cache[ip].din.addrs[bn]) != 0 ==> r.Some? && unchanged(`bitmap, `blocks, `cache, `owner, `logged)
      ensures r.Some? ==> logged <= old(logged) + maps + {r.value} && old(Pointer(ip)) == Pointer(ip)
      ensures r.Some? ==> |maps| <= (if old(cache[ip].din.addrs[bn]) != 0 then 0 else 1)
      ensures Journaled(old(OnDisk()), old(logged), OnDisk(), logged)
      ensures r == None <==> old(cache[ip].din.addrs[bn]) == 0 && FreeCount(old(bitmap)) == 0
      ensures r.Some? ==>
                FreeCount(bitmap) == FreeCount(old(bitmap)) - if old(cache[ip].din.addrs[bn]) == 0 then 1 else 0
      ensures r.Some? ==> OnlyBlock(old(View(ip)), View(ip), cache[ip].inum, bn)
    {
      hide Extends, Owned, OnlySlot, OnlyBlock;
      ghost var d := View(ip);
      OwnedShape(View(ip), owner);
      ExtendsItself(View(ip), cache[ip].inum);
      var addr := cache[ip].din.addrs[bn];
      if addr != 0 {
        BlockThere(d, cache[ip].inum, bn);
        return Some(addr), {};
      }
      r := FillAddr(ip, bn);
      if r.Some? {
        SlotFilled(d, View(ip), cache[ip].inum, bn);
      }
      maps := if r.Some? then {BBlock(r.value)} else {};
    }

    /** The block a word of the indirect block names, allocated if it is missing. */
    method WordBlock(ip: nat, j: nat) returns (r: Option<nat>, ghost maps: set<nat>)
      requires Held(ip) && j < NINDIRECT && 0 != cache[ip].din.addrs[INDIRECT] < |blocks|
      modifies `bitmap, `blocks, `owner, `logged
      ensures r == None ==> forall c: nat :: c < |bitmap| ==> bitmap[c]
      ensures r == None <==> Ref(old(View(ip)), Slot(cache[ip].inum, 13 + j)) == 0 && FreeCount(old(bitmap)) == 0
      ensures r.Some? ==> Held(ip) && Extends(old(View(ip)), View(ip), cache[ip].inum)
      ensures r.Some? ==> r.value == Ref(View(ip), Slot(cache[ip].inum, 13 + j)) != 0
      ensures Ref(old(View(ip)), Slot(cache[ip].inum, 13 + j)) != 0 ==> unchanged(`bitmap, `blocks, `owner, `logged)
      ensures r.Some? ==> logged <= old(logged) + maps + {r.value} + Pointer(ip)
      ensures |maps| <= if Ref(old(View(ip)), Slot(cache[ip].inum, 13 + j)) == 0 then 1 else 0
      ensures Journaled(old(OnDisk()), old(logged), OnDisk(), logged)
      ensures r.Some? ==>
                FreeCount(bitmap)
                == FreeCount(old(bitmap)) - if Ref(old(View(ip)), Slot(cache[ip].inum, 13 + j)) == 0 then 1 else 0
      ensures r.Some? ==> OnlyBlock(old(View(ip)), View(ip), cache[ip].inum, NDIRECT + j)
    {
      JournaledItself();
      ghost var d := View(ip);
      OwnedShape(d, owner);
      ExtendsItself(d, cache[ip].inum);
      hide Extends, Owned, WordAt, Journaled, OnlySlot, OnlyBlock;
      var addr := WordAt(blocks[cache[ip].din.addrs[INDIRECT]], j);
      if addr != 0 {
        BlockThere(d, cache[ip].inum, NDIRECT + j);
        return Some(addr), {};
      }
      r := FillWord(ip, j);
      if r.Some? {
        SlotFilled(d, View(ip), cache[ip].inum, 13 + j);
      }
      maps := if r.Some? then {BBlock(r.value)} else {};
    }

    /** From `d` to `e` block `bn` of file `i` was found or made to be `b`, with blocks filled in where they were
    missing: of the blocks logged, `maps` are in the bitmap, one for each that was made; `p` holds the indirect block.
    */
    static ghost predicate Given(d: Disk, e: Disk, i: nat, bn: nat, b: nat, was: set<nat>, now: set<nat>,
                                 maps: set<nat>, p0: set<nat>, p: set<nat>) {
      && bn < MAXFILE && Extends(d, e, i) && b == Ref(e, Slot(i, SlotOf(bn))) != 0
      && now <= was + maps + {b} + p && p0 <= p
      && |maps| + |p0| <= (if HasBlock(d, i, bn) then 0 else 1) + |p|
      && FreeCount(e.bitmap) == FreeCount(d.bitmap) - Need(d, i, bn) && OnlyBlock(d, e, i, bn)
    }

    /** The indirect block is there: from `d` to `e` it was allocated if it was missing, and is empty then. */
    static ghost predicate Halfway(d: Disk, e: Disk, i: nat, was: set<nat>, now: set<nat>, maps: set<nat>,
                                   p0: set<nat>, p: set<nat>) {
      && Extends(d, e, i) && now <= was + maps + p && p0 <= p && |maps| + |p0| <= |p|
      && FreeCount(e.bitmap) == FreeCount(d.bitmap) - (if d.inodes[i].addrs[INDIRECT] == 0 then 1 else 0)
      && (d.inodes[i].addrs[INDIRECT] == 0 ==>
            forall k: nat :: INDIRECT < k < NSLOTS ==> Ref(e, Slot(i, k)) == 0)
      && (d.inodes[i].addrs[INDIRECT] != 0 ==> e == d)
      && SameBlocks(d, e, i) && e.inodes[i].addrs[INDIRECT] != 0
    }

    static lemma BothGiven(d: Disk, e: Disk, f: Disk, i: nat, bn: nat, b: nat, was: set<nat>, mid: set<nat>,
                           now: set<nat>, maps: set<nat>, more: set<nat>, p0: set<nat>, p: set<nat>)
      requires NDIRECT <= bn < MAXFILE && Halfway(d, e, i, was, mid, maps, p0, p) && Extends(e, f, i)
      requires b == Ref(f, Slot(i, 1 + bn)) != 0 && now <= mid + more + {b} + p
      requires |more| <= if Ref(e, Slot(i, 1 + bn)) == 0 then 1 else 0
      requires FreeCount(f.bitmap) == FreeCount(e.bitmap) - if Ref(e, Slot(i, 1 + bn)) == 0 then 1 else 0
      requires OnlyBlock(e, f, i, bn)
      ensures Given(d, f, i, bn, b, was, now, maps + more, p0, p)
    {
      ExtendsTwice(d, e, f, i);
      NeedIndirect(d, i, bn);
      assert IsSlot(d, Slot(i, 1 + bn));
      assert |maps + more| <= |maps| + |more|;
    }

    /** How many blocks are missing then. */
    static lemma HalfwayNeeds(d: Disk, e: Disk, i: nat, bn: nat, was: set<nat>, now: set<nat>, maps: set<nat>,
                              p0: set<nat>, p: set<nat>)
      requires NDIRECT <= bn < MAXFILE && Halfway(d, e, i, was, now, maps, p0, p)
      ensures Ref(e, Slot(i, 1 + bn)) == 0 && FreeCount(e.bitmap) == 0 <==> FreeCount(d.bitmap) < Need(d, i, bn)
      ensures HasBlock(d, i, bn) ==> e == d && Ref(e, Slot(i, 1 + bn)) != 0
    {
      NeedIndirect(d, i, bn);
    }

    /** The block a word of the indirect block names, once that is there. */
    method WordGiven(ip: nat, bn: nat, ghost d: Disk, ghost was: set<nat>, ghost maps: set<nat>, ghost p0: set<nat>)
        returns (r: Option<nat>, ghost more: set<nat>)
      requires Held(ip) && NDIRECT <= bn < MAXFILE && 0 != cache[ip].din.addrs[INDIRECT] < |blocks|
      requires Halfway(d, View(ip), cache[ip].inum, was, logged, maps, p0, Pointer(ip))
      modifies `bitmap, `blocks, `owner, `logged
      ensures r == None ==> forall c: nat :: c < |bitmap| ==> bitmap[c]
      ensures r == None <==> FreeCount(d.bitmap) < Need(d, cache[ip].inum, bn)
      ensures r.Some? ==>
                && Held(ip)
                && Given(d, View(ip), cache[ip].inum, bn, r.value, was, logged, maps + more, p0, Pointer(ip))
      ensures HasBlock(d, cache[ip].inum, bn) ==> r.Some? && unchanged(`bitmap, `blocks, `owner, `logged)
      ensures Journaled(old(OnDisk()), old(logged), OnDisk(), logged)
    {
      hide Extends, Owned, Journaled, Need, HasBlock, Ref, FreeCount, Given, Halfway;
      ghost var i, e, mid := cache[ip].inum, View(ip), logged;
      HalfwayNeeds(d, e, i, bn, was, mid, maps, p0, Pointer(ip));
      r, more := WordBlock(ip, bn - NDIRECT);
      if r != None {
        BothGiven(d, e, View(ip), i, bn, r.value, was, mid, logged, maps, more, p0, Pointer(ip));
      }
    }

    /** The block a word of the indirect block names, both allocated where they are missing. */
    method IndirectEntry(ip: nat, bn: nat) returns (r: Option<nat>, ghost maps: set<nat>)
      requires Held(ip) && NDIRECT <= bn < MAXFILE
      modifies `bitmap, `blocks, `cache, `owner, `logged
      ensures OnlyAddrs(old(cache), cache, ip)
      ensures r == None ==> forall c: nat :: c < |bitmap| ==> bitmap[c]
      ensures r == None <==> FreeCount(old(bitmap)) < Need(old(View(ip)), cache[ip].inum, bn)
      ensures r.Some? ==>
                && Held(ip)
                && Given(old(View(ip)), View(ip), cache[ip].inum, bn, r.value, old(logged), logged, maps,
                         old(Pointer(ip)), Pointer(ip))
      ensures HasBlock(old(View(ip)), cache[ip].inum, bn) ==>
                r.Some? && unchanged(`bitmap, `blocks, `cache, `owner, `logged)
      ensures Journaled(old(OnDisk()), old(logged), OnDisk(), logged)
    {
      ghost var i := cache[ip].inum;
      ghost var d := View(ip);
      NeedIndirect(d, i, bn);
      hide Extends, Owned, WordAt, Journaled, Need, HasBlock, Ref, FreeCount, Given;
      ghost var disk, logs := OnDisk(), logged;
      var bp;
      bp, maps := IndirectBlock(ip);
      if bp == None {
        return None, {};
      }
      ghost var e, disk', logs' := View(ip), OnDisk(), logged;
      ZeroIndirect(e, i);
      ghost var more;
      r, more := WordGiven(ip, bn, d, logs, maps, old(Pointer(ip)));
      JournaledTwice(disk, logs, disk', logs', OnDisk(), logged);
      maps := maps + more;
    }

    static lemma ZeroIndirect(d: Disk, i: nat)
      requires i < |d.inodes|
      ensures 0 != d.inodes[i].addrs[INDIRECT] < |d.blocks| && d.blocks[d.inodes[i].addrs[INDIRECT]] == ZERO_BLOCK ==>
                forall k: nat :: INDIRECT < k < NSLOTS ==> Ref(d, Slot(i, k)) == 0
    {
      var bp := d.inodes[i].addrs[INDIRECT];
      if 0 != bp < |d.blocks| && d.blocks[bp] == ZERO_BLOCK {
        forall k: nat | INDIRECT < k < NSLOTS
          ensures Ref(d, Slot(i, k)) == 0
        {
          ZeroBlockWords(k - 13);
        }
      }
    }

    /** `bmap` gives the block that holds block `bn` of a file, after filling it and the indirect pointer where they are
    missing: no byte of any file changes, and nothing at all when the block is there. `None` is a panic: `bn` is out of
    range or too few blocks are free. */
    method Bmap(ip: nat, bn: nat) returns (r: Option<nat>, ghost maps: set<nat>)
      requires Held(ip)
      modifies `bitmap, `blocks, `cache, `owner, `logged
      ensures OnlyAddrs(old(cache), cache, ip)
      ensures bn >= MAXFILE ==> r == None
      ensures bn < MAXFILE ==> (r == None <==> FreeCount(old(bitmap)) < Need(old(View(ip)), cache[ip].inum, bn))
      ensures r == None ==> bn >= MAXFILE || forall c: nat :: c < |bitmap| ==> bitmap[c]
      ensures r.Some? ==>
                && Held(ip)
                && Given(old(View(ip)), View(ip), cache[ip].inum, bn, r.value, old(logged), logged, maps,
                         old(Pointer(ip)), Pointer(ip))
      ensures bn < MAXFILE && HasBlock(old(View(ip)), cache[ip].inum, bn) ==>
                r.Some? && unchanged(`bitmap, `blocks, `cache, `owner, `logged)
      ensures Journaled(old(OnDisk()), old(logged), OnDisk(), logged)
    {
      hide Extends, Owned, WordAt;
      if bn < NDIRECT {
        r, maps := DirectBlock(ip, bn);
        return;
      }
      if bn - NDIRECT < NINDIRECT {
        r, maps := IndirectEntry(ip, bn);
        return;
      }
      JournaledItself();
      return None, {};
    }

    /** The loop of `itrunc` over the direct addresses. */
    method TruncDirect(ip: nat, ghost d: Disk) returns (ghost gone: set<nat>)
      requires Held(ip) && d == View(ip)
      modifies `bitmap, `cache, `logged
      ensures |cache| == |old(cache)| && OnlyAddrs(old(cache), cache, ip)
      ensures cache[ip].din.addrs == NO_ADDRS[INDIRECT := old(cache)[ip].din.addrs[INDIRECT]]
      ensures FreedUpTo(d, owner, cache[ip].inum, gone, bitmap) && forall k: nat :: k in gone <==> k < NDIRECT
      ensures Journaled(old(OnDisk()), old(logged), OnDisk(), logged)
      ensures logged <= old(logged) + MapBlocks(|bitmap|) && |bitmap| == |old(bitmap)|
    {
      JournaledItself();
      hide Owned, FreedUpTo, Journaled, MapBlocks;
      ghost var inum := cache[ip].inum;
      gone := {};
      NothingFreed(d, owner, inum);
      var i := 0;
      while i < NDIRECT
        invariant i <= NDIRECT && forall k: nat :: k in gone <==> k < i
        invariant FreedUpTo(d, owner, inum, gone, bitmap) && Journaled(old(OnDisk()), old(logged), OnDisk(), logged)
        invariant |bitmap| == |old(bitmap)| && logged <= old(logged) + MapBlocks(|bitmap|)
        invariant |cache| == |old(cache)| && OnlyAddrs(old(cache), cache, ip)
        invariant forall k: nat :: k <= INDIRECT ==>
                  cache[ip].din.addrs[k] == if k < i then 0 else d.inodes[inum].addrs[k]
      {
        FreeNext(d, owner, inum, gone, bitmap, i);
        if cache[ip].din.addrs[i] != 0 {
          ghost var e, logs := OnDisk(), logged;
          var ok := Bfree(cache[ip].din.addrs[i]);
          assert ok;
          JournaledTwice(old(OnDisk()), old(logged), e, logs, OnDisk(), logged);
          SetAddr(ip, i, 0);
        }
        gone := gone + {i};
        i := i + 1;
      }
    }

    /** The part of `itrunc` that frees the indirect block and the blocks it names. */
    method TruncIndirect(ip: nat, ghost d: Disk, ghost gone: set<nat>) returns (ghost now: set<nat>)
      requires Owned(d, owner) && ip < |cache| && cache[ip].inum < |d.inodes| && d.blocks == blocks
      requires cache[ip].din.addrs[INDIRECT] == d.inodes[cache[ip].inum].addrs[INDIRECT] != 0
      requires FreedUpTo(d, owner, cache[ip].inum, gone, bitmap) && forall k: nat :: k in gone <==> k < NDIRECT
      modifies `bitmap, `cache, `logged
      ensures |cache| == |old(cache)| && OnlyAddrs(old(cache), cache, ip)
      ensures cache[ip].din.addrs == old(cache)[ip].din.addrs[INDIRECT := 0]
      ensures FreedUpTo(d, owner, cache[ip].inum, now, bitmap) && forall k: nat :: k in now <==> k < NSLOTS
      ensures Journaled(old(OnDisk()), old(logged), OnDisk(), logged)
      ensures logged <= old(logged) + MapBlocks(|bitmap|) && |bitmap| == |old(bitmap)|
    {
      JournaledItself();
      hide Owned, FreedUpTo, WordAt, Journaled, MapBlocks;
      ghost var inum := cache[ip].inum;
      PointerIsOwned(d, owner, inum);
      var bp := cache[ip].din.addrs[INDIRECT];
      now := gone;
      var j := 0;
      while j < NINDIRECT
        invariant j <= NINDIRECT && forall k: nat :: k in now <==> k < NDIRECT || 13 <= k < 13 + j
        invariant FreedUpTo(d, owner, inum, now, bitmap) && cache == old(cache)
        invariant |bitmap| == |old(bitmap)| && logged <= old(logged) + MapBlocks(|bitmap|)
        invariant Journaled(old(OnDisk()), old(logged), OnDisk(), logged)
      {
        FreeNext(d, owner, inum, now, bitmap, 13 + j);
        var a := WordAt(blocks[bp], j);
        if a != 0 {
          ghost var e, logs := OnDisk(), logged;
          var ok := Bfree(a);
          assert ok;
          JournaledTwice(old(OnDisk()), old(logged), e, logs, OnDisk(), logged);
        }
        now := now + {13 + j};
        j := j + 1;
      }
      FreeNext(d, owner, inum, now, bitmap, INDIRECT);
      ghost var e, logs := OnDisk(), logged;
      var ok := Bfree(bp);
      assert ok;
      JournaledTwice(old(OnDisk()), old(logged), e, logs, OnDisk(), logged);
      now := now + {INDIRECT};
      SetAddr(ip, INDIRECT, 0);
    }

    /** `itrunc` frees every block of an inode and leaves it empty, on the disk too; no `bfree` in it panics. */
    method Itrunc(ip: nat)
      requires Held(ip)
      modifies `bitmap, `blocks, `dinodes, `cache, `owner, `logged
      ensures |cache| == |old(cache)| && cache == old(cache)[ip := cache[ip]]
      ensures cache[ip] == old(cache[ip]).(din := old(cache[ip]).din.(addrs := NO_ADDRS, size := 0))
      ensures dinodes == old(dinodes)[cache[ip].inum := cache[ip].din] && blocks == old(blocks)
      ensures IsTruncated(old(View(ip)), old(owner), cache[ip].inum, View(ip))
      ensures owner == Others(old(owner), cache[ip].inum) && Held(ip)
      ensures Journaled(old(OnDisk()), old(logged), OnDisk(), logged)
      ensures logged <= old(logged) + MapBlocks(|bitmap|) + {IBlock(cache[ip].inum)} && |bitmap| == |old(bitmap)|
    {
      hide Owned, WordAt, FreedUpTo, IsTruncated, Others, MapBlocks;
      ghost var d := View(ip);
      ghost var inum := cache[ip].inum;
      ghost var gone := TruncDirect(ip, d);
      if cache[ip].din.addrs[INDIRECT] != 0 {
        gone := TruncIndirect(ip, d, gone);
      }
      cache := cache[ip := cache[ip].(din := cache[ip].din.(size := 0))];
      assert cache[ip].din.addrs == NO_ADDRS;
      Iupdate(ip);
      AllFreedIsTruncated(d, owner, inum, gone, View(ip));
      owner := Others(owner, inum);
      TruncateKeepsOwned(d, old(owner), inum, View(ip));
    }

    // ----- reading and writing

    /** One turn of the loop of `readi`: the bytes from `at` on that lie in one block, at most `max`. */
    method ReadPart(ip: nat, at: nat, max: nat) returns (r: Option<seq<Byte>>)
      requires Held(ip) && max > 0
      modifies `bitmap, `blocks, `cache, `owner, `logged
      ensures OnlyAddrs(old(cache), cache, ip)
      ensures r.Some? ==> Held(ip) && Extends(old(View(ip)), View(ip), cache[ip].inum)
      ensures r.Some? ==> 0 < |r.value| <= max && Spells(old(View(ip)), cache[ip].inum, at, r.value)
      ensures r.Some? ==> InOneBlock(at, |r.value|) && (|r.value| == max || Edge(at + |r.value|))
      ensures r == None <==> !HasRoom(old(View(ip)), cache[ip].inum, at)
      ensures r.Some? ==> BacksOne(old(View(ip)), View(ip), cache[ip].inum, at)
      ensures BlockAt(old(View(ip)), cache[ip].inum, at) ==>
                r.Some? && unchanged(`bitmap, `blocks, `cache, `owner, `logged)
      ensures Journaled(old(OnDisk()), old(logged), OnDisk(), logged)
    {
      hide Owned, Extends, Spells, Ref, Need, OnlyBlock;
      ghost var d := View(ip);
      var b, _ := Bmap(ip, at / BSIZE);
      if b == None {
        return None;
      }
      var m := if max < BSIZE - at % BSIZE then max else BSIZE - at % BSIZE;
      PartSpells(d, View(ip), owner, cache[ip].inum, at, m);
      return Some(blocks[b.value][at % BSIZE..at % BSIZE + m]);
    }

    /** The block that holds byte `at` was filled in if it was missing, from the free blocks. */
    static ghost predicate BacksOne(d: Disk, e: Disk, i: nat, at: nat) {
      && at / BSIZE < MAXFILE && OnlyBlock(d, e, i, at / BSIZE)
      && FreeCount(e.bitmap) == FreeCount(d.bitmap) - Need(d, i, at / BSIZE)
    }

    /** The blocks of the file after `tot` of `n` bytes were read. */
    static ghost predicate ReadSoFar(d: Disk, e: Disk, i: nat, off: nat, n: nat, tot: nat) {
      if off <= LIMIT then BacksBytes(d, e, i, off, tot) && (tot == 0 || tot == n || Edge(off + tot)) else tot == 0
    }

    static lemma NothingRead(d: Disk, i: nat, off: nat, n: nat)
      requires i < |d.inodes|
      ensures ReadSoFar(d, d, i, off, n, 0)
    {
      if off <= LIMIT {
        BacksNothing(d, i, off);
      }
    }

    static lemma ReadOn(d: Disk, e: Disk, f: Disk, i: nat, off: nat, n: nat, tot: nat, m: nat)
      requires ReadSoFar(d, e, i, off, n, tot) && BacksOne(e, f, i, off + tot) && tot < n
      requires InOneBlock(off + tot, m) && (m == n - tot || Edge(off + tot + m))
      ensures ReadSoFar(d, f, i, off, n, tot + m)
    {
      BacksTurn(d, e, f, i, off, tot, m);
    }

    /** How many bytes `readi` gives of a file of `size` bytes. */
    static function ReadLength(size: nat, off: nat, n: nat): nat
      requires off <= size
    {
      if off + n > size then size - off else n
    }

    /** What stops `readi`: bytes past the largest file, or holes for which there are too few free blocks. */
    static ghost predicate ReadStops(d: Disk, i: nat, off: nat, n: nat)
      requires i < |d.inodes|
    {
      if off + n <= LIMIT then WriteStops(d, i, off, n) else n > 0
    }

    static lemma ReadTurnStops(d: Disk, e: Disk, i: nat, off: nat, tot: nat, n: nat)
      requires ReadSoFar(d, e, i, off, n, tot) && tot < n && i < |d.inodes| && i < |e.inodes|
      requires !HasRoom(e, i, off + tot)
      ensures ReadStops(d, i, off, n)
    {
      if off + n <= LIMIT {
        TurnStops(d, e, i, off, tot, n);
      }
    }

    static lemma ReadNeverStopped(d: Disk, e: Disk, i: nat, off: nat, n: nat)
      requires ReadSoFar(d, e, i, off, n, n) && i < |d.inodes|
      ensures !ReadStops(d, i, off, n)
    {
      if n > 0 {
        SpanGoesOn(off, 0, n);
        assert off / BSIZE + Span(off, n) == (off + n - 1) / BSIZE + 1;
      }
    }

    /** `readi` gives the bytes from `off` on, at most `n` and none past the size. It never allocates in a hole-free
    file. `Some(-1)` is the error return; `None` is a panic of `bmap`, and a hole-free file never gets there. */
    method Readi(ip: nat, off: nat, n: nat) returns (r: Option<int>, dst: seq<Byte>)
      requires Held(ip) && off < WORD_RANGE && n < WORD_RANGE && cache[ip].din.typ != T_DEV
      modifies `bitmap, `blocks, `cache, `owner, `logged
      ensures OnlyAddrs(old(cache), cache, ip)
      ensures r == Some(-1) <==> off > old(cache[ip].din.size) || off + n >= WORD_RANGE
      ensures r.Some? && r.value != -1 ==>
                && Held(ip) && Extends(old(View(ip)), View(ip), cache[ip].inum)
                && r.value == |dst| == (if off + n > cache[ip].din.size then cache[ip].din.size - off else n)
                && Spells(old(View(ip)), cache[ip].inum, off, dst)
      ensures off <= old(cache[ip].din.size) && off + n < WORD_RANGE ==>
                (r == None <==>
                   ReadStops(old(View(ip)), cache[ip].inum, off, ReadLength(old(cache[ip].din.size), off, n)))
      ensures r == Some(-1) || NoHoles(old(View(ip)), cache[ip].inum) ==>
                r.Some? && unchanged(`bitmap, `blocks, `cache, `owner, `logged)
      ensures Journaled(old(OnDisk()), old(logged), OnDisk(), logged)
    {
      JournaledItself();
      hide Owned, Extends, HasBlock, NoHoles, Spells, Journaled, BacksOne, Edge, InOneBlock, HasRoom, ReadStops,
          ReadSoFar;
      dst := [];
      var size := cache[ip].din.size;
      if off > size || (off + n) % WORD_RANGE < off {
        return Some(-1), [];
      }
      var left := if off + n > size then size - off else n;
      ghost var i := cache[ip].inum;
      ghost var d := View(ip);
      OwnedShape(d, owner);
      ExtendsItself(d, i);
      SpellsNothing(d, i, off);
      NothingRead(d, i, off, left);
      var tot := 0;
      while tot < left
        invariant tot == |dst| <= left
        invariant OnlyAddrs(old(cache), cache, ip)
        invariant Held(ip) && Extends(d, View(ip), i) && ReadSoFar(d, View(ip), i, off, left, tot)
        invariant Spells(d, i, off, dst) && Journaled(old(OnDisk()), old(logged), OnDisk(), logged)
        invariant NoHoles(d, i) ==> unchanged(`bitmap, `blocks, `cache, `owner, `logged)
      {
        ghost var e := View(ip);
        if NoHoles(d, i) {
          assert d == e;
          InsideHasBlock(d, i, off + tot);
          BlockIsAt(d, i, off + tot);
        }
        ghost var disk, logs := OnDisk(), logged;
        var part := ReadPart(ip, off + tot, left - tot);
        JournaledTwice(old(OnDisk()), old(logged), disk, logs, OnDisk(), logged);
        if part == None {
          ReadTurnStops(d, e, i, off, tot, left);
          return None, dst;
        }
        ReadOn(d, e, View(ip), i, off, left, tot, |part.value|);
        ExtendsTwice(d, e, View(ip), i);
        ExtendsSameBytes(d, e, i);
        SpellsMore(d, e, i, off, dst, part.value);
        dst := dst + part.value;
        tot := tot + |part.value|;
      }
      ReadNeverStopped(d, View(ip), i, off, left);
      return Some(left), dst;
    }

    static lemma BlockIsAt(d: Disk, i: nat, at: nat)
      requires i < |d.inodes| && at / BSIZE < MAXFILE && HasBlock(d, i, at / BSIZE)
      ensures BlockAt(d, i, at)
    {
    }

    /** What a turn did in the block that holds byte `at`: there was room, the free blocks it needed are taken, and
    `data` is the block. */
    static ghost predicate OneTurn(d: Disk, e: Disk, i: nat, at: nat, data: set<nat>) {
      && i < |d.inodes| && i < |e.inodes| && HasRoom(d, i, at)
      && BacksOne(d, e, i, at)
      && data == {Ref(e, Slot(i, SlotOf(at / BSIZE)))}
    }

    /** One turn of the loop of `writei`: as much of `src[tot..]` as fits in the block that holds byte `off + tot`. */
    method WritePart(ip: nat, src: seq<Byte>, off: nat, tot: nat, ghost d: Disk)
        returns (r: Option<nat>, ghost block: nat, ghost maps: set<nat>)
      requires Held(ip) && tot < |src| && off + |src| <= LIMIT
      requires Wrote(d, View(ip), cache[ip].inum, off, src[..tot])
      modifies `bitmap, `blocks, `cache, `owner, `logged
      ensures OnlyAddrs(old(cache), cache, ip)
      ensures r == None ==> forall c: nat :: c < |bitmap| ==> bitmap[c]
      ensures r.Some? ==> 0 < r.value <= |src| - tot && InOneBlock(off + tot, r.value)
      ensures r.Some? ==> r.value == |src| - tot || Edge(off + tot + r.value)
      ensures r.Some? ==> Held(ip) && Wrote(d, View(ip), cache[ip].inum, off, src[..tot + r.value])
      ensures r.Some? ==> KeepsRefs(old(View(ip)), View(ip)) && OthersRefs(old(View(ip)), View(ip), cache[ip].inum)
      ensures r.Some? ==> BlockAt(View(ip), cache[ip].inum, off + tot)
      ensures r.Some? ==> OneTurn(old(View(ip)), View(ip), cache[ip].inum, off + tot, {block})
      ensures BlockAt(old(View(ip)), cache[ip].inum, off + tot) ==> r != None && cache == old(cache)
      ensures r == None <==> !HasRoom(old(View(ip)), cache[ip].inum, off + tot)
      ensures r.Some? ==> old(Pointer(ip)) <= Pointer(ip) && logged <= old(logged) + maps + {block} + Pointer(ip)
      ensures r.Some? ==>
                |maps| + |old(Pointer(ip))|
                <= (if BlockAt(old(View(ip)), cache[ip].inum, off + tot) then 0 else 1) + |Pointer(ip)|
      ensures Journaled(old(OnDisk()), old(logged), OnDisk(), logged)
    {
      hide Owned, Extends, Wrote, Ref, Need, OnlyBlock, BlockAt, InOneBlock, Edge, OneTurn, KeepsRefs, OthersRefs;
      ghost var cur := View(ip);
      ghost var i := cache[ip].inum;
      var at := off + tot;
      ThereOrNot(cur, i, at);
      var b, maps' := Bmap(ip, at / BSIZE);
      maps := maps';
      if b == None {
        return None, 0, maps;
      }
      block := b.value;
      ghost var mid, before := View(ip), logged;
      var m := if |src| - tot < BSIZE - at % BSIZE then |src| - tot else BSIZE - at % BSIZE;
      WriteTurn(d, cur, mid, owner, i, off, src, tot, m, at / BSIZE, at % BSIZE);
      blocks := blocks[b.value := Patched(blocks[b.value], at % BSIZE, src[tot..tot+m])];
      logged := logged + {b.value};
      PartFits(at, |src| - tot, m);
      PartIsDone(cur, mid, View(ip), i, at, block, old(logged), before, maps, old(Pointer(ip)), Pointer(ip));
      r := Some(m);
    }

    static lemma ThereOrNot(d: Disk, i: nat, at: nat)
      requires i < |d.inodes| && at / BSIZE < MAXFILE
      ensures BlockAt(d, i, at) <==> HasBlock(d, i, at / BSIZE)
    {
    }

    static lemma PartFits(at: nat, n: nat, m: nat)
      requires n > 0 && m == if n < BSIZE - at % BSIZE then n else BSIZE - at % BSIZE
      ensures 0 < m <= n && InOneBlock(at, m) && (m == n || Edge(at + m))
    {
    }

    /** What a turn leaves of the blocks of the file. */
    static lemma PartIsDone(d: Disk, mid: Disk, e: Disk, i: nat, at: nat, b: nat, was: set<nat>, now: set<nat>,
                          maps: set<nat>, p0: set<nat>, p: set<nat>)
      requires Given(d, mid, i, at / BSIZE, b, was, now, maps, p0, p) && e.bitmap == mid.bitmap
      requires e.inodes == mid.inodes && forall t: Slot :: IsSlot(mid, t) ==> Ref(e, t) == Ref(mid, t)
      ensures KeepsRefs(d, e) && OthersRefs(d, e, i) && BlockAt(e, i, at) && OneTurn(d, e, i, at, {b})
    {
      hide Extends, Need, Ref;
      assert IsSlot(mid, Slot(i, SlotOf(at / BSIZE)));
      ExtendsThenKeeps(d, mid, e, i);
      OnlyBlockThenKeeps(d, mid, e, i, at / BSIZE);
      ExtendsOthers(d, mid, e, i);
    }

    /** The blocks logged so far by a write of so many turns: one data block a turn, one bitmap block for each block
    allocated, and the indirect block `p`. A turn whose block was there before is saved a bitmap block. */
    static ghost predicate Within(was: set<nat>, now: set<nat>, data: set<nat>, maps: set<nat>, p0: set<nat>,
                                  p: set<nat>, turns: nat, saved: nat) {
      && now <= was + data + maps + p && p0 <= p && |p| <= 1
      && |data| <= turns && |maps| + |p0| + saved <= turns + |p|
    }

    static lemma TurnWithin(was: set<nat>, mid: set<nat>, now: set<nat>, data: set<nat>, maps: set<nat>, p0: set<nat>,
                            p: set<nat>, q: set<nat>, turns: nat, saved: nat, block: nat, more: set<nat>, cost: nat)
      requires Within(was, mid, data, maps, p0, p, turns, saved) && p <= q && |q| <= 1 && cost <= 1
      requires now <= mid + more + {block} + q && |more| + |p| <= cost + |q|
      ensures Within(was, now, data + {block}, maps + more, p0, q, turns + 1, saved)
      ensures cost == 0 ==> Within(was, now, data + {block}, maps + more, p0, q, turns + 1, saved + 1)
    {
    }

    /** The end of `writei`: a write past the old size stores the new size, and with it the addresses, on the disk. */
    method FinishWrite(ip: nat, off: nat, src: seq<Byte>, ghost d: Disk)
      requires Held(ip) && Wrote(d, View(ip), cache[ip].inum, off, src) && KeepsRefs(d, View(ip))
      requires cache[ip].din.size == d.inodes[cache[ip].inum].size && off <= cache[ip].din.size && off + |src| <= LIMIT
      requires Backed(View(ip), cache[ip].inum, off, off + |src|) && OthersRefs(d, View(ip), cache[ip].inum)
      modifies `cache, `dinodes, `logged
      ensures |cache| == |old(cache)|
      ensures cache == old(cache)[ip := old(cache)[ip].(din := old(cache)[ip].din.(size :=
                        if off + |src| > old(cache[ip].din.size) then off + |src| else old(cache[ip].din.size)))]
      ensures dinodes == if off + |src| > old(cache[ip].din.size)
                         then old(dinodes)[cache[ip].inum := cache[ip].din] else old(dinodes)
      ensures logged <= old(logged) + {IBlock(cache[ip].inum)}
      ensures Held(ip) && Wrote(d, View(ip), cache[ip].inum, off, src) && KeepsRefs(d, View(ip))
      ensures NoHoles(d, cache[ip].inum) ==> NoHoles(View(ip), cache[ip].inum)
      ensures OthersRefs(d, View(ip), cache[ip].inum)
      ensures Journaled(old(OnDisk()), old(logged), OnDisk(), logged)
    {
      hide Owned, Wrote, Ref, KeepsRefs, OthersRefs;
      ghost var i := cache[ip].inum;
      ghost var e := View(ip);
      WroteShape(d, e, i, off, src);
      if |src| > 0 && off + |src| > cache[ip].din.size {
        ResizeKeeps(d, e, owner, i, off, src, off + |src|);
        cache := cache[ip := cache[ip].(din := cache[ip].din.(size := off + |src|))];
        assert View(ip) == Resized(e, i, off + |src|);
        BackedStays(e, View(ip), i, off, off + |src|);
        OthersRefsTwice(d, e, View(ip), i);
        Iupdate(ip);
      }
      if NoHoles(d, i) {
        BlocksStay(d, View(ip), i);
        BackedKeepsNoHoles(d, View(ip), i, off, off + |src|);
      }
    }

    /** What holds before the turn of a write at byte `at`: blocks that were there are kept, the part written is backed,
    and in a hole-free file the in-memory inode has changed only if the write has passed its end. */
    static ghost predicate Midway(d: Disk, e: Disk, i: nat, off: nat, at: nat, was: seq<Incore>, now: seq<Incore>) {
      && i < |d.inodes| && i < |e.inodes| && off <= at && KeepsRefs(d, e) && OthersRefs(d, e, i)
      && Backed(e, i, off, at)
      && (NoHoles(d, i) ==> now == was || at > d.inodes[i].size)
    }

    static lemma TurnKeepsMidway(d: Disk, e: Disk, f: Disk, i: nat, off: nat, at: nat, m: nat, was: seq<Incore>,
                                 now: seq<Incore>, next: seq<Incore>)
      requires Midway(d, e, i, off, at, was, now) && i < |f.inodes| && KeepsRefs(e, f) && OthersRefs(e, f, i)
      requires BlockAt(f, i, at) && InOneBlock(at, m)
      requires BlockAt(e, i, at) ==> next == now
      ensures Midway(d, f, i, off, at + m, was, next)
    {
      hide NoHoles, HasBlock, KeepsRefs, OthersRefs, Backed;
      KeepsRefsTwice(d, e, f);
      OthersRefsTwice(d, e, f, i);
      BackedMore(e, f, i, off, at, m);
      if NoHoles(d, i) && !HasBlock(e, i, at / BSIZE) {
        HoleIsBeyond(d, e, i, at);
      }
    }

    /** The blocks of a hole-free file are there all through a write to it. */
    static lemma StillThere(d: Disk, e: Disk, i: nat, off: nat, at: nat, was: seq<Incore>, now: seq<Incore>)
      requires Midway(d, e, i, off, at, was, now)
      ensures NoHoles(d, i) && at < d.inodes[i].size ==> BlockAt(e, i, at)
    {
      if NoHoles(d, i) && at < d.inodes[i].size {
        InsideHasBlock(d, i, at);
      }
    }

    /** The state of the loop of `writei` before the turn at byte `off + tot`: `d`, `was` and `start` are the disk as
    the caller sees it, the cache and the disk at its start, `data` and `maps` the data and bitmap blocks logged
    since, when `logs` were logged and `p0` was the pointer. */
    ghost predicate Turning(ip: nat, src: seq<Byte>, off: nat, tot: nat, d: Disk, was: seq<Incore>, start: Disk,
                            logs: set<nat>, data: set<nat>, maps: set<nat>, p0: set<nat>)
      requires tot <= |src|
      reads this
    {
      && Held(ip) && OnlyAddrs(was, cache, ip) && cache[ip].inum == was[ip].inum && |cache| == |was|
      && was[ip].inum < |d.inodes| && off <= d.inodes[was[ip].inum].size && off + |src| <= LIMIT
      && Wrote(d, View(ip), cache[ip].inum, off, src[..tot])
      && PartDone(d, View(ip), cache[ip].inum, off, |src|, tot, was, cache, data)
      && Within(logs, logged, data, maps, p0, Pointer(ip), Span(off, tot), Saving(d, cache[ip].inum, off, tot))
      && Journaled(start, logs, OnDisk(), logged)
    }

    /** The blocks of the file after `tot` bytes of `n`. */
    static ghost predicate PartDone(d: Disk, e: Disk, i: nat, off: nat, n: nat, tot: nat, was: seq<Incore>,
                                    now: seq<Incore>, data: set<nat>) {
      && Midway(d, e, i, off, off + tot, was, now) && BacksBytes(d, e, i, off, tot)
      && (tot == 0 ==> e == d && data == {}) && (tot == 0 || tot == n || Edge(off + tot))
      && (InOneBlock(off, n) && tot > 0 ==> tot == n && OneTurn(d, e, i, off, data))
    }

    static lemma NextPartDone(d: Disk, e: Disk, f: Disk, i: nat, off: nat, n: nat, tot: nat, m: nat, was: seq<Incore>,
                              now: seq<Incore>, next: seq<Incore>, data: set<nat>, block: nat)
      requires PartDone(d, e, i, off, n, tot, was, now, data) && tot + m <= n && tot < n && i < |f.inodes|
      requires InOneBlock(off + tot, m) && (m == n - tot || Edge(off + tot + m))
      requires OneTurn(e, f, i, off + tot, {block}) && KeepsRefs(e, f) && OthersRefs(e, f, i)
      requires BlockAt(f, i, off + tot) && (BlockAt(e, i, off + tot) ==> next == now)
      ensures PartDone(d, f, i, off, n, tot + m, was, next, data + {block})
    {
      assert {} + {block} == {block};
      OneBlock(off, n, m);
      hide Midway, BacksBytes, OneTurn, KeepsRefs, OthersRefs, BlockAt, InOneBlock, Edge;
      TurnKeepsMidway(d, e, f, i, off, off + tot, m, was, now, next);
      BackedByTurn(d, e, f, i, off, tot, m, {block});
    }

    static ghost function Saving(d: Disk, i: nat, off: nat, tot: nat): nat
      requires i < |d.inodes|
    {
      if tot == 0 then 0 else Saved(d, i, off)
    }

    /** A write runs out of blocks: there are not enough for those it needs. */
    static ghost predicate WriteStops(d: Disk, i: nat, off: nat, n: nat)
      requires i < |d.inodes| && off + n <= LIMIT
    {
      FreeCount(d.bitmap) < WriteNeeds(d, i, off, n)
    }

    /** A write that starts inside a block of a hole-free file need not allocate its first block. */
    static ghost function Saved(d: Disk, i: nat, off: nat): (r: nat)
      requires i < |d.inodes|
      ensures r <= 1
    {
      if NoHoles(d, i) && off % BSIZE != 0 then 1 else 0
    }

    static lemma FirstTurnIsSaved(d: Disk, i: nat, off: nat)
      requires i < |d.inodes| && off / BSIZE < MAXFILE && off <= d.inodes[i].size
      ensures Saved(d, i, off) == 1 ==> HasBlock(d, i, off / BSIZE)
    {
      hide NoHoles, HasBlock;
      if Saved(d, i, off) == 1 {
        FirstBlockIsThere(d, i, off);
      }
    }

    /** One turn of the loop of `writei`. */
    method WriteOne(ip: nat, src: seq<Byte>, off: nat, tot: nat, ghost d: Disk, ghost was: seq<Incore>,
                    ghost start: Disk, ghost logs: set<nat>, ghost data: set<nat>, ghost maps: set<nat>,
                    ghost p0: set<nat>)
        returns (r: Option<nat>, ghost data': set<nat>, ghost maps': set<nat>)
      requires tot < |src| && Turning(ip, src, off, tot, d, was, start, logs, data, maps, p0)
      modifies `bitmap, `blocks, `cache, `owner, `logged
      ensures r == None ==>
                && (forall c: nat :: c < |bitmap| ==> bitmap[c]) && WriteStops(d, was[ip].inum, off, |src|)
                && Journaled(start, logs, OnDisk(), logged)
      ensures r.Some? ==>
                && 0 < r.value <= |src| - tot
                && Turning(ip, src, off, tot + r.value, d, was, start, logs, data', maps', p0)
    {
      hide Owned, Wrote, Ref, NoHoles, HasBlock, KeepsRefs, OthersRefs, Backed, Within, Midway, Span, OnlyAddrs,
          Pointer, Saving, Journaled, HasRoom, Edge, InOneBlock, OneTurn, BacksBytes, BlockAt;
      ghost var e, disk, before, mid, p := View(ip), OnDisk(), logged, cache, Pointer(ip);
      ghost var i := cache[ip].inum;
      StillThere(d, e, i, off, off + tot, was, cache);
      var m, block, more := WritePart(ip, src, off, tot, d);
      OnlyAddrsTwice(was, mid, cache, ip);
      JournaledTwice(start, logs, disk, before, OnDisk(), logged);
      if m == None {
        TurnStops(d, e, i, off, tot, |src|);
        return None, {}, {};
      }
      TurnDone(ip, src, off, tot, m.value, d, e, was, mid, start, logs, before, data, maps, p0, p, block, more);
      return m, data + {block}, maps + more;
    }

    /** The state after a turn: `e`, `mid`, `before` and `p` are the disk, the cache, the log and the pointer before
      it. */
    lemma TurnDone(ip: nat, src: seq<Byte>, off: nat, tot: nat, m: nat, d: Disk, e: Disk, was: seq<Incore>,
                   mid: seq<Incore>, start: Disk, logs: set<nat>, before: set<nat>, data: set<nat>, maps: set<nat>,
                   p0: set<nat>, p: set<nat>, block: nat, more: set<nat>)
      requires tot + m <= |src| && ip < |cache| && cache[ip].inum < |dinodes| && Held(ip)
      requires OnlyAddrs(was, cache, ip) && |cache| == |was| && cache[ip].inum == was[ip].inum < |d.inodes|
      requires off <= d.inodes[was[ip].inum].size && off + |src| <= LIMIT && tot < |src|
      requires PartDone(d, e, cache[ip].inum, off, |src|, tot, was, mid, data)
      requires InOneBlock(off + tot, m) && (m == |src| - tot || Edge(off + tot + m))
      requires OneTurn(e, View(ip), was[ip].inum, off + tot, {block})
      requires KeepsRefs(e, View(ip)) && OthersRefs(e, View(ip), cache[ip].inum)
      requires Wrote(d, View(ip), cache[ip].inum, off, src[..tot + m])
      requires BlockAt(View(ip), cache[ip].inum, off + tot) && Journaled(start, logs, OnDisk(), logged)
      requires cache[ip].inum < |e.inodes| && (BlockAt(e, cache[ip].inum, off + tot) ==> cache == mid)
      requires Within(logs, before, data, maps, p0, p, Span(off, tot), Saving(d, cache[ip].inum, off, tot))
      requires p <= Pointer(ip) && logged <= before + more + {block} + Pointer(ip)
      requires |more| + |p| <= (if BlockAt(e, cache[ip].inum, off + tot) then 0 else 1) + |Pointer(ip)|
      ensures Turning(ip, src, off, tot + m, d, was, start, logs, data + {block}, maps + more, p0)
    {
      hide Owned, Wrote, Ref, NoHoles, HasBlock, KeepsRefs, OthersRefs, Backed, Within, Midway, Span, OnlyAddrs,
          Pointer, Saved, Edge, Journaled, HasRoom, InOneBlock, OneTurn, BacksBytes, BlockAt, Held;
      var i := cache[ip].inum;
      PointerIsOne(ip);
      WithinDone(d, e, i, off, tot, m, logs, before, logged, data, maps, p0, p, Pointer(ip), block, more);
      NextPartDone(d, e, View(ip), i, off, |src|, tot, m, was, mid, cache, data, block);
    }

    static lemma BackedByTurn(d: Disk, e: Disk, f: Disk, i: nat, off: nat, tot: nat, m: nat, data: set<nat>)
      requires BacksBytes(d, e, i, off, tot) && (tot == 0 || Edge(off + tot))
      requires InOneBlock(off + tot, m) && OneTurn(e, f, i, off + tot, data)
      ensures BacksBytes(d, f, i, off, tot + m)
    {
      BacksTurn(d, e, f, i, off, tot, m);
    }

    /** The blocks logged after a turn. */
    static lemma WithinDone(d: Disk, e: Disk, i: nat, off: nat, tot: nat, m: nat, logs: set<nat>, before: set<nat>,
                            now: set<nat>, data: set<nat>, maps: set<nat>, p0: set<nat>, p: set<nat>, q: set<nat>,
                            block: nat, more: set<nat>)
      requires i < |d.inodes| && i < |e.inodes| && off <= d.inodes[i].size && off + tot + m <= LIMIT
      requires (tot == 0 ==> e == d) && (tot == 0 || Edge(off + tot)) && InOneBlock(off + tot, m)
      requires Within(logs, before, data, maps, p0, p, Span(off, tot), Saving(d, i, off, tot))
      requires p <= q && |q| <= 1 && now <= before + more + {block} + q
      requires |more| + |p| <= (if BlockAt(e, i, off + tot) then 0 else 1) + |q|
      ensures Within(logs, now, data + {block}, maps + more, p0, q, Span(off, tot + m), Saving(d, i, off, tot + m))
    {
      hide NoHoles, HasBlock, Within, Span, Saved, Edge;
      FirstTurnIsSaved(d, i, off);
      SpanTurn(off, tot, m);
      var cost := if BlockAt(e, i, off + tot) then 0 else 1;
      TurnWithin(logs, before, now, data, maps, p0, p, q, Span(off, tot), Saving(d, i, off, tot), block, more, cost);
    }

    lemma PointerIsOne(ip: nat)
      requires ip < |cache|
      ensures |Pointer(ip)| <= 1
    {
    }

    static lemma OnlyAddrsTwice(was: seq<Incore>, mid: seq<Incore>, now: seq<Incore>, ip: nat)
      requires OnlyAddrs(was, mid, ip) && OnlyAddrs(mid, now, ip)
      ensures OnlyAddrs(was, now, ip) && |now| == |was| && now[ip].inum == was[ip].inum
    {
    }

    /** A write that fits in one block ends with its first turn. */
    static lemma OneBlock(off: nat, n: nat, m: nat)
      requires 0 < m <= n
      ensures InOneBlock(off, n) && (m == n || Edge(off + m)) ==> m == n
    {
    }

    lemma TurningStarts(ip: nat, src: seq<Byte>, off: nat, d: Disk)
      requires Held(ip) && d == View(ip) && off <= cache[ip].din.size && off + |src| <= LIMIT
      ensures Turning(ip, src, off, 0, d, cache, OnDisk(), logged, {}, {}, Pointer(ip))
    {
      JournaledItself();
      OthersRefsItself(d, cache[ip].inum);
      hide Owned, Wrote, KeepsRefs, OthersRefs, Backed, Journaled;
      WroteNothing(d, cache[ip].inum, off);
      BacksNothing(d, cache[ip].inum, off);
      assert src[..0] == [];
    }

    /** The loop of `writei`. */
    method WriteLoop(ip: nat, src: seq<Byte>, off: nat, ghost d: Disk)
        returns (ok: bool, ghost data: set<nat>, ghost maps: set<nat>)
      requires ip < |cache| && Held(ip) && d == View(ip) && off <= cache[ip].din.size && off + |src| <= LIMIT
      modifies `bitmap, `blocks, `cache, `owner, `logged
      ensures !ok ==>
                && (forall c: nat :: c < |bitmap| ==> bitmap[c]) && WriteStops(d, old(cache[ip].inum), off, |src|)
                && Journaled(old(OnDisk()), old(logged), OnDisk(), logged)
      ensures ok ==>
                Turning(ip, src, off, |src|, d, old(cache), old(OnDisk()), old(logged), data, maps, old(Pointer(ip)))
    {
      hide *;
      TurningStarts(ip, src, off, d);
      data, maps := {}, {};
      var tot := 0;
      while tot < |src|
        invariant tot <= |src|
        invariant Turning(ip, src, off, tot, d, old(cache), old(OnDisk()), old(logged), data, maps, old(Pointer(ip)))
      {
        var m;
        m, data, maps := WriteOne(ip, src, off, tot, d, old(cache), old(OnDisk()), old(logged), data, maps,
            old(Pointer(ip)));
        if m == None {
          return false, {}, {};
        }
        tot := tot + m.value;
      }
      ok := true;
    }

    static lemma SpanOfOne(off: nat, n: nat)
      ensures InOneBlock(off, n) ==> n > 0 && Span(off, n) == 1
    {
      if InOneBlock(off, n) {
        SpanTurn(off, 0, n);
      }
    }

    static lemma OneTurnStays(d: Disk, e: Disk, f: Disk, i: nat, off: nat, data: set<nat>, n: nat)
      requires i < |e.inodes| && i < |f.inodes| && f.bitmap == e.bitmap && f.blocks == e.blocks
      requires f.inodes[i].addrs == e.inodes[i].addrs
      ensures OneTurn(d, e, i, off, data) ==> OneTurn(d, f, i, off, data)
      ensures BacksBytes(d, e, i, off, n) ==> BacksBytes(d, f, i, off, n)
    {
      assert forall c: nat :: c < MAXFILE ==> (HasBlock(f, i, c) <==> HasBlock(e, i, c));
    }

    /** The blocks a write logs: those of its data, of the bitmap, the indirect block and that of the inode. */
    ghost function WriteLog(ip: nat, data: set<nat>, maps: set<nat>): set<nat>
      requires ip < |cache|
      reads this
    {
      data + maps + Pointer(ip) + {IBlock(cache[ip].inum)}
    }

    /** What a write logs in all. */
    static lemma CostOfWrite(d: Disk, i: nat, off: nat, n: nat, was: set<nat>, mid: set<nat>, now: set<nat>,
                             data: set<nat>, maps: set<nat>, p0: set<nat>, p: set<nat>, b: nat)
      requires i < |d.inodes| && now <= mid + {b}
      requires Within(was, mid, data, maps, p0, p, Span(off, n), Saving(d, i, off, n))
      ensures now <= was + (data + maps + p + {b})
      ensures NoHoles(d, i) ==> |data + maps + p + {b}| <= WriteCost(off, n)
      ensures n > 0 && Span(off, n) == 1 ==> |maps| + |p0| + Saved(d, i, off) <= 1 + |p|
      ensures p0 <= p
    {
      hide NoHoles, Span;
      assert |data + maps + p + {b}| <= |data| + |maps| + |p| + 1;
    }

    /** What a write of `src` at `off` has done from a state with `d` as the caller's view of the disk, and cache,
    table, log and pointer as given: `data` and `maps` are the data and bitmap blocks logged. */
    ghost predicate Written(ip: nat, src: seq<Byte>, off: nat, data: set<nat>, maps: set<nat>, d: Disk,
                            was: seq<Incore>, table: seq<Dinode>, logs: set<nat>, p0: set<nat>)
      requires ip < |was| && was[ip].inum < |table|
      reads this
    {
      var i, din := was[ip].inum, was[ip].din;
      && |cache| == |was| && cache == was[ip := cache[ip]]
      && cache[ip] == was[ip].(din := din.(size := cache[ip].din.size, addrs := cache[ip].din.addrs))
      && cache[ip].din.size == (if off + |src| > din.size then off + |src| else din.size)
      && |dinodes| == |table| && dinodes == table[i := dinodes[i]]
      && Held(ip) && Wrote(d, View(ip), i, off, src) && KeepsRefs(d, View(ip))
      && (NoHoles(d, i) ==>
            && NoHoles(View(ip), i) && (table[i] == din ==> Synced(ip))
            && |WriteLog(ip, data, maps)| <= WriteCost(off, |src|))
      && logged <= logs + WriteLog(ip, data, maps) && p0 <= Pointer(ip)
      && OthersRefs(d, View(ip), i) && BacksBytes(d, View(ip), i, off, |src|)
      && (InOneBlock(off, |src|) ==>
            && OneTurn(d, View(ip), i, off, data)
            && |maps| + |p0| + Saved(d, i, off) <= 1 + |Pointer(ip)|)
    }

    /** The cached inode after new addresses and then a new size. */
    static lemma CacheAfter(was: seq<Incore>, mid: seq<Incore>, now: seq<Incore>, ip: nat, size: nat)
      requires OnlyAddrs(was, mid, ip) && |now| == |mid| && ip < |now|
      requires now == mid[ip := mid[ip].(din := mid[ip].din.(size := size))]
      ensures |now| == |was| && now == was[ip := now[ip]] && now[ip].din.size == size && now[ip].inum == was[ip].inum
      ensures now[ip] == was[ip].(din := was[ip].din.(size := size, addrs := now[ip].din.addrs))
    {
    }

    static lemma SameSize(was: seq<Incore>, now: seq<Incore>, ip: nat)
      requires OnlyAddrs(was, now, ip)
      ensures now[ip].din.size == was[ip].din.size
    {
    }

    /** What `writei` does when its bytes are there. */
    method FinishBytes(ip: nat, src: seq<Byte>, off: nat, ghost d: Disk, ghost was: seq<Incore>, ghost start: Disk,
                       ghost logs: set<nat>, ghost data: set<nat>, ghost maps: set<nat>, ghost p0: set<nat>)
      requires Turning(ip, src, off, |src|, d, was, start, logs, data, maps, p0) && start.inodes == dinodes
      requires d.inodes[was[ip].inum] == was[ip].din && was[ip].inum < |dinodes|
      modifies `cache, `dinodes, `logged
      ensures Written(ip, src, off, data, maps, d, was, start.inodes, logs, p0)
      ensures Journaled(start, logs, OnDisk(), logged)
    {
      hide Owned, Wrote, NoHoles, KeepsRefs, OthersRefs, Backed, Journaled, HasRoom, InOneBlock, Within, WriteCost,
          Span, OneTurn, Saved, BacksBytes, OnlyAddrs, Edge, Saving, Written;
      SpanOfOne(off, |src|);
      assert src[..|src|] == src;
      ghost var i, e, disk, mid := cache[ip].inum, View(ip), OnDisk(), logged;
      SameSize(was, cache, ip);
      FinishWrite(ip, off, src, d);
      CacheAfter(was, old(cache), cache, ip, cache[ip].din.size);
      JournaledTwice(start, logs, disk, mid, OnDisk(), logged);
      OneTurnStays(d, e, View(ip), i, off, data, |src|);
      WrittenIs(ip, src, off, data, maps, d, was, start.inodes, logs, mid, p0);
    }

    lemma WrittenIs(ip: nat, src: seq<Byte>, off: nat, data: set<nat>, maps: set<nat>, d: Disk, was: seq<Incore>,
                    table: seq<Dinode>, logs: set<nat>, mid: set<nat>, p0: set<nat>)
      requires ip < |was| == |cache| && was[ip].inum < |table| && was[ip].inum < |d.inodes|
      requires cache == was[ip := cache[ip]] && d.inodes[was[ip].inum] == was[ip].din
      requires cache[ip] == was[ip].(din := was[ip].din.(size := cache[ip].din.size, addrs := cache[ip].din.addrs))
      requires cache[ip].din.size == if off + |src| > was[ip].din.size then off + |src| else was[ip].din.size
      requires dinodes == if off + |src| > was[ip].din.size then table[was[ip].inum := cache[ip].din] else table
      requires NoHoles(d, was[ip].inum) && off + |src| <= was[ip].din.size ==> cache == was
      requires Held(ip) && Wrote(d, View(ip), was[ip].inum, off, src) && KeepsRefs(d, View(ip))
      requires NoHoles(d, was[ip].inum) ==> NoHoles(View(ip), was[ip].inum)
      requires OthersRefs(d, View(ip), was[ip].inum) && BacksBytes(d, View(ip), was[ip].inum, off, |src|)
      requires InOneBlock(off, |src|) ==> OneTurn(d, View(ip), was[ip].inum, off, data)
      requires logged <= mid + {IBlock(was[ip].inum)}
      requires Within(logs, mid, data, maps, p0, Pointer(ip), Span(off, |src|), Saving(d, was[ip].inum, off, |src|))
      ensures Written(ip, src, off, data, maps, d, was, table, logs, p0)
    {
      SpanOfOne(off, |src|);
      hide Owned, Wrote, NoHoles, KeepsRefs, OthersRefs, InOneBlock, Within, WriteCost, Span, OneTurn, Saved,
          BacksBytes, Saving, Held;
      var i := was[ip].inum;
      CostOfWrite(d, i, off, |src|, logs, mid, logged, data, maps, p0, Pointer(ip), IBlock(i));
    }

    /** The part of `writei` after its checks. */
    method WriteBytes(ip: nat, src: seq<Byte>, off: nat) returns (ok: bool, ghost data: set<nat>, ghost maps: set<nat>)
      requires Held(ip) && off <= cache[ip].din.size && off + |src| <= LIMIT
      modifies `bitmap, `blocks, `dinodes, `cache, `owner, `logged
      ensures !ok ==> (forall c: nat :: c < |bitmap| ==> bitmap[c])
      ensures ok <==> !WriteStops(old(View(ip)), old(cache[ip].inum), off, |src|)
      ensures ok ==>
                Written(ip, src, off, data, maps, old(View(ip)), old(cache), old(dinodes), old(logged),
                    old(Pointer(ip)))
      ensures Journaled(old(OnDisk()), old(logged), OnDisk(), logged)
    {
      hide Owned, Journaled, WriteStops, Turning, Written;
      ghost var d := View(ip);
      ok, data, maps := WriteLoop(ip, src, off, d);
      if !ok {
        return false, {}, {};
      }
      EnoughWas(ip, src, off, d, old(cache), old(OnDisk()), old(logged), data, maps, old(Pointer(ip)));
      FinishBytes(ip, src, off, d, old(cache), old(OnDisk()), old(logged), data, maps, old(Pointer(ip)));
    }

    lemma EnoughWas(ip: nat, src: seq<Byte>, off: nat, d: Disk, was: seq<Incore>, start: Disk, logs: set<nat>,
                    data: set<nat>, maps: set<nat>, p0: set<nat>)
      requires Turning(ip, src, off, |src|, d, was, start, logs, data, maps, p0)
      ensures !WriteStops(d, was[ip].inum, off, |src|)
    {
    }

    /** `writei` replaces exactly the bytes from `off` on by `src`, grows the size to the end of the write if that is
    larger, and touches no other file. In a hole-free file whose disk copy is up to date, it ends so, and logs no more
    blocks than `WriteCost`. `Some(-1)` is the error return; `None` the panic, when fewer blocks are free than it needs.
    Inside a hole-free file that is out of reach. */
    method Writei(ip: nat, src: seq<Byte>, off: nat)
        returns (r: Option<int>, ghost data: set<nat>, ghost maps: set<nat>)
      requires Held(ip) && off < WORD_RANGE && |src| < WORD_RANGE && cache[ip].din.typ != T_DEV
      modifies `bitmap, `blocks, `dinodes, `cache, `owner, `logged
      ensures r == Some(-1) <==> off > old(cache[ip].din.size) || off + |src| > LIMIT
      ensures r == Some(-1) ==> unchanged(this)
      ensures r == None ==> forall c: nat :: c < |bitmap| ==> bitmap[c]
      ensures NoHoles(old(View(ip)), old(cache[ip].inum)) && off + |src| <= old(cache[ip].din.size) ==> r != None
      ensures off <= old(cache[ip].din.size) && off + |src| <= LIMIT ==>
                (r == None <==> WriteStops(old(View(ip)), old(cache[ip].inum), off, |src|))
      ensures InOneBlock(off, |src|) && off <= old(cache[ip].din.size) && off + |src| <= LIMIT ==>
                (r == None <==> !HasRoom(old(View(ip)), old(cache[ip].inum), off))
      ensures r.Some? && r.value != -1 ==>
                && r.value == |src|
                && Written(ip, src, off, data, maps, old(View(ip)), old(cache), old(dinodes), old(logged),
                     old(Pointer(ip)))
      ensures Journaled(old(OnDisk()), old(logged), OnDisk(), logged)
    {
      JournaledItself();
      if off + |src| <= LIMIT {
        SmallWriteNeeds(View(ip), cache[ip].inum, off, |src|);
      }
      hide Owned, Wrote, NoHoles, KeepsRefs, Backed, Journaled, InOneBlock, WriteCost, WriteNeeds, Need, BacksBytes,
          Span;
      var n := |src|;
      if off > cache[ip].din.size || (off + n) % WORD_RANGE < off {
        return Some(-1), {}, {};
      }
      if off + n > MAXFILE * BSIZE {
        return Some(-1), {}, {};
      }
      var ok;
      ok, data, maps := WriteBytes(ip, src, off);
      r := if ok then Some(n) else None;
    }

    // ----- the inode cache

    /** An entry in use is of a disk inode, and when valid is a copy of one in use. */
    static ghost predicate EntryOk(e: Incore, dinodes: seq<Dinode>) {
      e.ref > 0 ==> e.inum < |dinodes| && (e.valid ==> e.din == dinodes[e.inum] && e.din.typ != 0)
    }

    /** No inode has two entries in use. */
    static ghost predicate CacheOk(cache: seq<Incore>, dinodes: seq<Dinode>) {
      && (forall c: nat :: c < |cache| ==> EntryOk(cache[c], dinodes))
      && (forall c: nat, e: nat :: c < e < |cache| && cache[c].ref > 0 && cache[e].ref > 0 ==>
           cache[c].inum != cache[e].inum)
    }

    /** What holds between the operations on inodes. */
    ghost predicate Idle()
      reads this
    {
      Owned(OnDisk(), owner) && CacheOk(cache, dinodes)
    }

    predicate IsCached(c: nat, inum: nat)
      requires c < |cache|
      reads this
    {
      cache[c].ref > 0 && cache[c].inum == inum
    }

    /** The inode is not in the cache, and every entry of the cache is in use. */
    static ghost predicate NoneLeft(cache: seq<Incore>, inum: nat) {
      forall c: nat :: c < |cache| ==> cache[c].ref > 0 && cache[c].inum != inum
    }

    /** `iget` finds the entry of an inode or recycles one nobody refers to; `None` is the panic "no inodes". */
    method Iget(inum: nat) returns (r: Option<nat>)
      requires inum < |dinodes| && CacheOk(cache, dinodes)
      modifies `cache
      ensures CacheOk(cache, dinodes)
      ensures r == None <==> NoneLeft(old(cache), inum)
      ensures r == None ==> cache == old(cache)
      ensures r.Some? ==> r.value < |cache| && IsCached(r.value, inum)
      ensures r.Some? && old(r.value < |cache| && IsCached(r.value, inum)) ==>
                cache == old(cache)[r.value := old(cache)[r.value].(ref := old(cache)[r.value].ref + 1)]
      ensures r.Some? && !old(r.value < |cache| && IsCached(r.value, inum)) ==>
                && r.value < |old(cache)| && old(cache)[r.value].ref == 0
                && cache == old(cache)[r.value := cache[r.value]] && cache[r.value].ref == 1 && !cache[r.value].valid
                && forall c: nat :: c < |old(cache)| ==> !old(IsCached(c, inum))
    {
      var empty: Option<nat> := None;
      for c := 0 to |cache|
        invariant cache == old(cache)
        invariant forall e: nat :: e < c ==> cache[e].ref == 0 || cache[e].inum != inum
        invariant empty == None ==> forall e: nat :: e < c ==> cache[e].ref > 0
        invariant empty.Some? ==> empty.value < c && cache[empty.value].ref == 0
      {
        if cache[c].ref > 0 && cache[c].inum == inum {
          cache := cache[c := cache[c].(ref := cache[c].ref + 1)];
          return Some(c);
        }
        if empty == None && cache[c].ref == 0 {
          empty := Some(c);
        }
      }
      if empty == None {
        return None;
      }
      cache := cache[empty.value := cache[empty.value].(inum := inum, ref := 1, valid := false)];
      return empty;
    }

    /** `idup` */
    method Idup(ip: nat)
      requires ip < |cache| && cache[ip].ref > 0 && CacheOk(cache, dinodes)
      modifies `cache
      ensures cache == old(cache)[ip := old(cache)[ip].(ref := old(cache)[ip].ref + 1)] && CacheOk(cache, dinodes)
    {
      cache := cache[ip := cache[ip].(ref := cache[ip].ref + 1)];
    }

    /** `ilock` reads the disk inode unless the entry is valid; false is one of its two panics. */
    method Ilock(ip: nat) returns (ok: bool)
      requires ip < |cache| && Idle()
      modifies `cache
      ensures ok <==> old(cache)[ip].ref > 0 && dinodes[old(cache)[ip].inum].typ != 0
      ensures ok ==> cache == old(cache)[ip := old(cache)[ip].(valid := true, din := dinodes[old(cache)[ip].inum])]
      ensures ok ==> Idle() && Held(ip) && Synced(ip) && View(ip) == OnDisk()
    {
      if cache[ip].ref < 1 {
        return false;
      }
      assert EntryOk(cache[ip], dinodes);
      if !cache[ip].valid {
        cache := cache[ip := cache[ip].(valid := true, din := dinodes[cache[ip].inum])];
        if cache[ip].din.typ == 0 {
          return false;
        }
      }
      assert View(ip) == OnDisk();
      return true;
    }

    /** The part of `iput` that frees an inode. */
    method FreeInode(ip: nat)
      requires Held(ip) && Synced(ip)
      modifies `bitmap, `blocks, `dinodes, `cache, `owner, `logged
      ensures |cache| == |old(cache)| && cache == old(cache)[ip := cache[ip]]
      ensures Owned(OnDisk(), owner) && IsFreed(old(OnDisk()), old(owner), cache[ip].inum, OnDisk())
      ensures cache[ip].inum == old(cache)[ip].inum && cache[ip].ref == old(cache)[ip].ref && !cache[ip].valid
      ensures dinodes == old(dinodes)[cache[ip].inum := cache[ip].din]
      ensures Journaled(old(OnDisk()), old(logged), OnDisk(), logged)
      ensures logged <= old(logged) + MapBlocks(|bitmap|) + {IBlock(cache[ip].inum)} && |bitmap| == |old(bitmap)|
    {
      hide Owned, Others;
      assert View(ip) == OnDisk();
      Itrunc(ip);
      MetaKeepsOwned(View(ip), owner, cache[ip].inum, cache[ip].din.(typ := 0));
      cache := cache[ip := cache[ip].(din := cache[ip].din.(typ := 0))];
      Iupdate(ip);
      cache := cache[ip := cache[ip].(valid := false)];
    }

    /** `iput` gives up a reference. Exactly when it was the last one to an inode without links is the inode freed, with
    all its blocks; otherwise the disk does not change. */
    method Iput(ip: nat) returns (freed: bool)
      requires ip < |cache| && cache[ip].ref > 0 && Idle()
      modifies `bitmap, `blocks, `dinodes, `cache, `owner, `logged
      ensures Idle()
      ensures freed <==> old(cache)[ip].valid && old(cache)[ip].din.nlink == 0 && old(cache)[ip].ref == 1
      ensures |cache| == |old(cache)| && cache == old(cache)[ip := cache[ip]] && cache[ip].ref == old(cache)[ip].ref - 1
      ensures !freed ==> OnDisk() == old(OnDisk()) && owner == old(owner) && logged == old(logged)
      ensures !freed ==> cache[ip] == old(cache)[ip].(ref := old(cache)[ip].ref - 1)
      ensures freed ==> IsFreed(old(OnDisk()), old(owner), old(cache)[ip].inum, OnDisk())
      ensures Journaled(old(OnDisk()), old(logged), OnDisk(), logged)
      ensures logged <= old(logged) + MapBlocks(|bitmap|) + {IBlock(old(cache)[ip].inum)} && |bitmap| == |old(bitmap)|
    {
      hide Owned, IsFreed;
      freed := false;
      assert EntryOk(cache[ip], dinodes);
      if cache[ip].valid && cache[ip].din.nlink == 0 {
        if cache[ip].ref == 1 {
          assert View(ip) == OnDisk();
          FreeInode(ip);
          freed := true;
        }
      }
      cache := cache[ip := cache[ip].(ref := cache[ip].ref - 1)];
    }

    /** Inode `i` is the first free one from 1 on. */
    static ghost predicate IsFirstFree(dinodes: seq<Dinode>, i: nat) {
      0 < i < |dinodes| && dinodes[i].typ == 0 && forall j: nat :: 0 < j < i ==> dinodes[j].typ != 0
    }

    /** `ialloc` takes the first free inode from 1 on, empties it and gives it a type and a cache entry; `None` is a
    panic "no inodes": none is free on the disk, or no cache entry is. */
    method Ialloc(typ: int) returns (r: Option<nat>)
      requires Idle() && typ != 0
      modifies `dinodes, `cache, `logged
      ensures r == None <==>
                forall j: nat :: IsFirstFree(old(dinodes), j) ==> NoneLeft(old(cache), j)
      ensures r.Some? ==>
                && Idle() && r.value < |cache| && cache[r.value].ref > 0
                && var i := cache[r.value].inum;
                && |cache| == |old(cache)| && cache == old(cache)[r.value := cache[r.value]]
                && (old(cache)[r.value].ref == 0 || old(cache)[r.value].inum == i)
                && logged == old(logged) + {IBlock(i)} && IsFirstFree(old(dinodes), i)
                && dinodes == old(dinodes)[i := Dinode(typ, 0, 0, 0, 0, NO_ADDRS)]
      ensures Journaled(old(OnDisk()), old(logged), OnDisk(), logged)
    {
      hide Owned;
      var inum := 1;
      while inum < |dinodes|
        invariant 1 <= inum && dinodes == old(dinodes) && cache == old(cache)
        invariant forall j: nat :: 0 < j < inum && j < |dinodes| ==> dinodes[j].typ != 0
      {
        if dinodes[inum].typ == 0 {
          ghost var d := OnDisk();
          var dip := Dinode(typ, 0, 0, 0, 0, NO_ADDRS);
          FreeHasNoAddrs(d, owner, inum);
          MetaKeepsOwned(d, owner, inum, dip);
          dinodes := dinodes[inum := dip];
          logged := logged + {IBlock(inum)};
          assert OnDisk() == d.(inodes := d.inodes[inum := dip]);
          assert forall c: nat :: c < |cache| ==> EntryOk(cache[c], old(dinodes)) && EntryOk(cache[c], dinodes);
          assert IsFirstFree(old(dinodes), inum);
          r := Iget(inum);
          return;
        }
        inum := inum + 1;
      }
      return None;
    }

    // ----- files

    /** `begin_op` */
    ghost method BeginOp()
      modifies `logged
      ensures logged == {}
    {
      logged := {};
    }

    /** `end_op` */
    ghost method EndOp()
      modifies `transactions
      ensures transactions == old(transactions) + [logged]
    {
      transactions := transactions + [logged];
    }

    /** One more transaction was done, and it logged no more blocks than a transaction may. */
    static ghost predicate OneMoreTransaction(was: seq<set<nat>>, now: seq<set<nat>>) {
      |now| == |was| + 1 && now[..|was|] == was && |now[|was|]| <= Crash.MAXOPBLOCKS
    }

    /** One chunk of `filewrite`: a transaction of its own, within the reservation of `begin_op`. */
    method WriteChunk(ip: nat, src: seq<Byte>, off: nat) returns (r: Option<int>)
      requires Idle() && ip < |cache| && cache[ip].ref > 0 && off < WORD_RANGE && |src| <= 3 * BSIZE
      requires dinodes[cache[ip].inum].typ !in {0, T_DEV} && NoHoles(OnDisk(), cache[ip].inum)
      modifies this
      ensures r == Some(-1) <==> off > old(dinodes[cache[ip].inum]).size || off + |src| > LIMIT
      ensures r == None ==> forall c: nat :: c < |bitmap| ==> bitmap[c]
      ensures off <= old(dinodes[cache[ip].inum]).size && off + |src| <= LIMIT ==>
                (r == None <==> WriteStops(old(OnDisk()), old(cache[ip].inum), off, |src|))
      ensures r != None ==>
                && Idle() && |cache| == |old(cache)| && |dinodes| == |old(dinodes)|
                && cache[ip].inum == old(cache)[ip].inum && cache[ip].ref == old(cache)[ip].ref
                && NoHoles(OnDisk(), cache[ip].inum)
                && OneMoreTransaction(old(transactions), transactions)
                && Journaled(old(OnDisk()), {}, OnDisk(), transactions[|old(transactions)|])
      ensures r == Some(-1) ==> OnDisk() == old(OnDisk())
      ensures r != None && r != Some(-1) ==>
                var i, was := cache[ip].inum, old(dinodes[cache[ip].inum]);
                && r.value == |src| && Wrote(old(OnDisk()), OnDisk(), i, off, src)
                && BacksBytes(old(OnDisk()), OnDisk(), i, off, |src|)
                && dinodes[i] == was.(size := if off + |src| > was.size then off + |src|
                     else was.size, addrs := dinodes[i].addrs)
    {
      hide Owned, Wrote, NoHoles, Journaled, WriteStops, BacksBytes, KeepsRefs, OthersRefs, OneTurn, InOneBlock,
          Pointer, WriteCost;
      BeginOp();
      assert EntryOk(cache[ip], dinodes);
      var ok := Ilock(ip);
      assert ok;
      ghost var data, maps;
      r, data, maps := Writei(ip, src, off);
      if r == None {
        return;
      }
      assert |logged| <= Crash.MAXOPBLOCKS by {
        if r != Some(-1) {
          ChunkFitsInLog(off, |src|);
          LoggedFits(logged, WriteLog(ip, data, maps));
        }
      }
      assert View(ip) == OnDisk();
      EndOp();
    }

    static lemma LoggedFits(logged: set<nat>, wrote: set<nat>)
      requires logged <= wrote
      ensures |logged| <= |wrote|
    {
      assert wrote == logged + (wrote - logged);
    }

    /** What a chunk of `filewrite` may take: half of the blocks left after inode, indirect block and two of slop. */
    static const MAX_CHUNK: nat := ((Crash.MAXOPBLOCKS - 1 - 1 - 2) / 2) * 512

    static predicate WholeChunks(n: nat) {
      n % MAX_CHUNK == 0
    }

    static lemma NoChunkYet()
      ensures WholeChunks(0)
    {
    }

    static lemma NextChunkEnds(tot: nat, m: nat)
      requires m == MAX_CHUNK && WholeChunks(tot)
      ensures WholeChunks(tot + m)
    {
    }

    /** How much of a write of `n` bytes at `off` into a file of `size` bytes goes through: all of it if it fits in the
    largest file, otherwise as many whole chunks as fit, and nothing past the end of the file. */
    static function Accepted(size: nat, off: nat, n: nat): (w: nat)
      requires size <= LIMIT
      ensures w <= n && (off <= size ==> off + w <= LIMIT) && (off > size ==> w == 0)
      ensures off <= size && w < n ==> w % 1536 == 0 && off + w + 1536 > LIMIT
    {
      if off > size then 0
      else if off + n <= LIMIT then n
      else (LIMIT - off) / MAX_CHUNK * MAX_CHUNK
    }

    static lemma AcceptedNothing(size: nat, off: nat, n: nat)
      requires size <= LIMIT && off > size
      ensures Accepted(size, off, n) == 0
    {
    }

    static lemma AcceptedAll(size: nat, off: nat, n: nat)
      requires size <= LIMIT && (n == 0 || (off <= size && off + n <= LIMIT))
      ensures Accepted(size, off, n) == n
    {
    }

    /** The first chunk that is refused is the one after the accepted bytes. */
    static lemma RefusedAfterAccepted(size: nat, off: nat, n: nat, tot: nat, m: nat)
      requires off <= size <= LIMIT && WholeChunks(tot) && tot + m <= n && off + tot <= LIMIT
      requires m == if n - tot > MAX_CHUNK then MAX_CHUNK else n - tot
      requires off + tot + m > LIMIT
      ensures tot == Accepted(size, off, n) && tot != n
    {
      assert MAX_CHUNK == 1536;
      var room, k := LIMIT - off, tot / MAX_CHUNK;
      assert tot == MAX_CHUNK * k && tot <= room < tot + MAX_CHUNK;
      assert room / MAX_CHUNK == k;
    }

    /** A chunk that is not refused is among the accepted bytes. */
    static lemma ChunkIsAccepted(size: nat, off: nat, n: nat, tot: nat, m: nat)
      requires off <= size <= LIMIT && WholeChunks(tot) && tot + m <= n && off + tot + m <= LIMIT
      requires m == if n - tot > MAX_CHUNK then MAX_CHUNK else n - tot
      ensures tot + m <= Accepted(size, off, n)
    {
      assert MAX_CHUNK == 1536;
      if off + n > LIMIT {
        var room, k := LIMIT - off, tot / MAX_CHUNK + 1;
        assert tot + m == MAX_CHUNK * k <= room;
        assert k <= room / MAX_CHUNK;
      }
    }

    /** All transactions after the first `from` kept to the reservation. */
    static ghost predicate AllFit(transactions: seq<set<nat>>, from: nat) {
      forall k: nat :: from <= k < |transactions| ==> |transactions[k]| <= Crash.MAXOPBLOCKS
    }

    /** The state of `filewrite` after `tot` bytes. */
    ghost predicate Writing(ip: nat, src: seq<Byte>, off: nat, tot: nat, d: Disk, was: seq<Incore>, done: seq<set<nat>>)
      requires tot <= |src| && ip < |was| && was[ip].inum < |d.inodes|
      reads this
    {
      var i := was[ip].inum;
      && Idle() && |cache| == |was| && cache[ip].inum == i && cache[ip].ref == was[ip].ref > 0
      && |dinodes| == |d.inodes| && NoHoles(OnDisk(), i) && Wrote(d, OnDisk(), i, off, src[..tot])
      && dinodes[i] == d.inodes[i].(size := dinodes[i].size, addrs := dinodes[i].addrs)
      && dinodes[i].size == (if tot > 0 && off + tot > d.inodes[i].size then off + tot else d.inodes[i].size)
      && |done| <= |transactions| && transactions[..|done|] == done && AllFit(transactions, |done|)
      && (off <= d.inodes[i].size ==> BacksBytes(d, OnDisk(), i, off, tot))
    }

    /** The size of the file after `tot` bytes. */
    lemma SizeSoFar(ip: nat, src: seq<Byte>, off: nat, tot: nat, d: Disk, was: seq<Incore>, done: seq<set<nat>>)
      requires tot <= |src| && ip < |was| && was[ip].inum < |d.inodes| && Writing(ip, src, off, tot, d, was, done)
      ensures |dinodes| == |d.inodes|
      ensures var before, now := d.inodes[was[ip].inum].size, dinodes[was[ip].inum].size;
        now == if tot > 0 && off + tot > before then off + tot else before
    {
    }

    lemma NothingWritten(ip: nat, src: seq<Byte>, off: nat)
      requires Idle() && ip < |cache| && cache[ip].ref > 0 && cache[ip].inum < |dinodes| &&
                NoHoles(OnDisk(), cache[ip].inum)
      ensures Writing(ip, src, off, 0, OnDisk(), cache, transactions)
    {
      WroteNothing(OnDisk(), cache[ip].inum, off);
      if off <= dinodes[cache[ip].inum].size {
        BacksNothing(OnDisk(), cache[ip].inum, off);
      }
      assert src[..0] == [];
    }

    /** `filewrite` on a file: the bytes it accepts are laid over the file from `off` on, the offset moves past them,
    and the result is their number only if that is all of them. No transaction it makes exceeds the reservation. It
    panics exactly when there are fewer free blocks than the accepted bytes need. */
    method Filewrite(ip: nat, src: seq<Byte>, off: nat) returns (r: Option<int>, off': nat)
      requires Idle() && ip < |cache| && cache[ip].ref > 0 && off < WORD_RANGE
      requires dinodes[cache[ip].inum].typ !in {0, T_DEV} && NoHoles(OnDisk(), cache[ip].inum)
      modifies this
      ensures var i := old(cache[ip].inum);
              var size := old(dinodes)[i].size;
              r == None <==> off <= size && WriteStops(old(OnDisk()), i, off, Accepted(size, off, |src|))
      ensures r != None ==>
                var w := Accepted(old(dinodes[cache[ip].inum]).size, off, |src|);
                && r.value == (if w == |src| then |src| else -1) && off' == off + w
                && Writing(ip, src, off, w, old(OnDisk()), old(cache), old(transactions))
    {
      hide Owned, Wrote, NoHoles, Writing, Accepted, WriteStops, WholeChunks;
      off' := off;
      ghost var d, was, done := OnDisk(), cache, transactions;
      assert EntryOk(cache[ip], dinodes);
      ghost var i := cache[ip].inum;
      SizeInLimit(d, i);
      NothingWritten(ip, src, off);
      var tot := 0;
      NoChunkYet();
      while tot < |src|
        invariant tot <= |src| && (tot == |src| || WholeChunks(tot)) && off' == off + tot
        invariant tot > 0 ==> off <= d.inodes[i].size && off + tot <= LIMIT
        invariant Writing(ip, src, off, tot, d, was, done)
      {
        var n1 := |src| - tot;
        if n1 > MAX_CHUNK {
          n1 := MAX_CHUNK;
          NextChunkEnds(tot, n1);
        }
        SizeSoFar(ip, src, off, tot, d, was, done);
        var m := NextChunk(ip, src, off, tot, n1, d, was, done);
        if m == None {
          ChunkIsAccepted(d.inodes[i].size, off, |src|, tot, n1);
          StopsLater(d, i, off, tot + n1, Accepted(d.inodes[i].size, off, |src|));
          return None, off';
        }
        if m.value < 0 {
          EnoughSoFar(ip, src, off, tot, d, was, done);
          if off <= d.inodes[i].size {
            RefusedAfterAccepted(d.inodes[i].size, off, |src|, tot, n1);
          } else {
            AcceptedNothing(d.inodes[i].size, off, |src|);
          }
          return Some(-1), off';
        }
        assert m.value == n1;
        off' := off' + n1;
        tot := tot + n1;
      }
      AcceptedAll(d.inodes[i].size, off, |src|);
      EnoughSoFar(ip, src, off, |src|, d, was, done);
      return Some(|src|), off';
    }

    static lemma StopsLater(d: Disk, i: nat, off: nat, n: nat, w: nat)
      requires i < |d.inodes| && n <= w && off + w <= LIMIT && WriteStops(d, i, off, n)
      ensures WriteStops(d, i, off, w)
    {
      SpanEnd(off, w);
      SpanGrows(off, n, w);
      NeedGrows(d, i, off / BSIZE, off / BSIZE + Span(off, n), off / BSIZE + Span(off, w));
    }

    lemma EnoughSoFar(ip: nat, src: seq<Byte>, off: nat, tot: nat, d: Disk, was: seq<Incore>, done: seq<set<nat>>)
      requires tot <= |src| && ip < |was| && was[ip].inum < |d.inodes| && Writing(ip, src, off, tot, d, was, done)
      ensures off <= d.inodes[was[ip].inum].size && off + tot <= LIMIT ==> !WriteStops(d, was[ip].inum, off, tot)
    {
    }

    /** One turn of the loop of `filewrite`. */
    method NextChunk(ip: nat, src: seq<Byte>, off: nat, tot: nat, n1: nat, ghost d: Disk, ghost was: seq<Incore>,
                     ghost done: seq<set<nat>>) returns (r: Option<int>)
      requires 0 < n1 <= MAX_CHUNK && tot + n1 <= |src| && off + tot < WORD_RANGE
      requires ip < |was| && was[ip].inum < |d.inodes| && Writing(ip, src, off, tot, d, was, done)
      requires d.inodes[was[ip].inum].typ !in {0, T_DEV} && (tot > 0 ==> off <= d.inodes[was[ip].inum].size)
      modifies this
      ensures r == None ==>
                && off <= d.inodes[was[ip].inum].size && off + tot + n1 <= LIMIT
                && WriteStops(d, was[ip].inum, off, tot + n1)
      ensures r == Some(-1) <==> off + tot > old(dinodes[was[ip].inum]).size || off + tot + n1 > LIMIT
      ensures r == Some(-1) ==> Writing(ip, src, off, tot, d, was, done)
      ensures r != None && r != Some(-1) ==> r.value == n1 && Writing(ip, src, off, tot + n1, d, was, done)
    {
      hide Owned, Wrote, NoHoles, CacheOk, WriteNeeds, BacksBytes;
      ghost var e := OnDisk();
      ghost var i := was[ip].inum;
      r := WriteChunk(ip, src[tot..tot + n1], off + tot);
      if r == None {
        ChunkStops(d, e, i, off, tot, n1, tot + n1);
      }
      if r != None && r != Some(-1) {
        WroteTwice(d, e, OnDisk(), i, off, src[..tot], src[tot..tot + n1]);
        assert src[..tot] + src[tot..tot + n1] == src[..tot + n1];
        if off <= d.inodes[i].size {
          BacksBytesTwice(d, e, OnDisk(), i, off, tot, n1);
        }
      }
    }
  }
}
