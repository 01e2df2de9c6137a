/** The tree of directories on a disk, and what file operations do to it. */
module Trees {
  import opened Blocks
  import opened Ownership
  import opened Files
  import opened Dirents
  import Links

  /** Types and link counts from the inodes, entries from the bytes of the directories. */
  ghost function TreeOn(d: Disk): (t: Links.Tree)
    ensures |t.typ| == |t.nlink| == |t.dirs| == |d.inodes|
  {
    Links.Tree(seq(|d.inodes|, i requires 0 <= i < |d.inodes| => d.inodes[i].typ),
               seq(|d.inodes|, i requires 0 <= i < |d.inodes| => d.inodes[i].nlink),
               seq(|d.inodes|, i requires 0 <= i < |d.inodes| => EntriesOn(d, i)))
  }

  ghost function EntriesOn(d: Disk, i: nat): seq<Dirent>
    requires i < |d.inodes|
  {
    if d.inodes[i].typ == Links.T_DIR && d.inodes[i].size <= LIMIT then Entries(Contents(d, i)) else []
  }

  lemma TypesOn(d: Disk, i: nat)
    requires i < |d.inodes|
    ensures TreeOn(d).typ[i] == d.inodes[i].typ && TreeOn(d).nlink[i] == d.inodes[i].nlink
  {
  }

  lemma EntriesAre(d: Disk, i: nat)
    requires i < |d.inodes|
    ensures TreeOn(d).dirs[i] == EntriesOn(d, i)
  {
  }

  /** A directory has no hole and holds whole records. */
  ghost predicate DirWhole(d: Disk, i: nat) {
    i < |d.inodes| && d.inodes[i].typ == Links.T_DIR ==> NoHoles(d, i) && d.inodes[i].size % DIRENT == 0
  }

  ghost predicate DirsWhole(d: Disk) {
    forall i: nat :: DirWhole(d, i)
  }

  /** File `i` is the same on both disks. */
  ghost predicate SameFile(d: Disk, e: Disk, i: nat) {
    i < |d.inodes| && i < |e.inodes| && e.inodes[i] == d.inodes[i] && SameBytes(d, e, i)
  }

  /** Inode `j` keeps its type and device numbers; if it is no directory, all but its link count, and its bytes. */
  ghost predicate FileKept(d: Disk, e: Disk, j: nat) {
    j < |d.inodes| && j < |e.inodes| ==>
      && e.inodes[j].typ == d.inodes[j].typ && e.inodes[j].major == d.inodes[j].major &&
           e.inodes[j].minor == d.inodes[j].minor
      && (d.inodes[j].typ != Links.T_DIR ==>
            e.inodes[j] == d.inodes[j].(nlink := e.inodes[j].nlink) && SameBytes(d, e, j))
  }

  /** So it is for all inodes but those in `but`. With the tree, which has the counts and the entries of the
  directories, that says all there is to say of the disk. */
  ghost predicate FilesKept(d: Disk, e: Disk, but: set<nat>) {
    |e.inodes| == |d.inodes| && forall j: nat :: j !in but ==> FileKept(d, e, j)
  }

  lemma FilesKeptTwice(d: Disk, e: Disk, f: Disk, but: set<nat>)
    requires FilesKept(d, e, but) && FilesKept(e, f, {})
    ensures FilesKept(d, f, but)
  {
    hide FileByte;
    forall j: nat | j !in but
      ensures FileKept(d, f, j)
    {
      assert FileKept(d, e, j) && FileKept(e, f, j);
      if j < |d.inodes| && d.inodes[j].typ != Links.T_DIR {
        SameBytesTwice(d, e, f, j);
      }
    }
  }

  /** An inode written anew with its blocks as they were. */
  lemma KeptAround(d: Disk, e: Disk, i: nat, din: Dinode)
    requires i < |d.inodes| && e == d.(inodes := d.inodes[i := din]) && din.addrs == d.inodes[i].addrs
    ensures FilesKept(d, e, {i})
    ensures din == d.inodes[i].(nlink := din.nlink) ==> FilesKept(d, e, {})
  {
    assert forall j: nat :: j < |d.inodes| ==> e.inodes[j].addrs == d.inodes[j].addrs;
  }

  /** A directory written to. */
  lemma KeptAroundWrite(d: Disk, e: Disk, i: nat, off: nat, b: seq<Byte>)
    requires Wrote(d, e, i, off, b) && d.inodes[i].typ == Links.T_DIR
    requires e.inodes[i] == d.inodes[i].(size := e.inodes[i].size, addrs := e.inodes[i].addrs)
    ensures FilesKept(d, e, {})
  {
    hide FileByte;
  }

  lemma SameFileSameEntries(d: Disk, e: Disk, i: nat)
    requires SameFile(d, e, i)
    ensures EntriesOn(e, i) == EntriesOn(d, i)
  {
    hide FileByte;
    if d.inodes[i].size <= LIMIT {
      assert Contents(e, i) == Contents(d, i);
    }
  }

  /** The tree changes at inode `i` only, when only file `i` does. */
  lemma TreeChangesAt(d: Disk, e: Disk, i: nat)
    requires i < |d.inodes| == |e.inodes| && forall j: nat :: j < |d.inodes| && j != i ==> SameFile(d, e, j)
    ensures TreeOn(e) == Links.Tree(TreeOn(d).typ[i := e.inodes[i].typ], TreeOn(d).nlink[i := e.inodes[i].nlink],
                                    TreeOn(d).dirs[i := EntriesOn(e, i)])
  {
    hide EntriesOn;
    var t, u := TreeOn(e), TreeOn(d);
    forall j: nat | j < |d.inodes| && j != i
      ensures t.typ[j] == u.typ[j] && t.nlink[j] == u.nlink[j] && t.dirs[j] == u.dirs[j]
    {
      assert SameFile(d, e, j);
      SameFileSameEntries(d, e, j);
    }
    assert t.typ == u.typ[i := e.inodes[i].typ];
    assert t.nlink == u.nlink[i := e.inodes[i].nlink];
    assert t.dirs == u.dirs[i := EntriesOn(e, i)];
  }

  /** Blocks that stay keep a directory whole. */
  lemma WholeStays(d: Disk, e: Disk, i: nat)
    requires DirWhole(d, i) && KeepsRefs(d, e) && i < |d.inodes| && i < |e.inodes|
    requires e.inodes[i].typ == d.inodes[i].typ && e.inodes[i].size == d.inodes[i].size
    ensures DirWhole(e, i)
  {
    BlocksStay(d, e, i);
  }

  /** A record written to a directory. */
  lemma EntrySet(d: Disk, e: Disk, i: nat, k: nat, b: seq<Byte>, x: Dirent)
    requires DirsWhole(d) && KeepsRefs(d, e) && Wrote(d, e, i, DIRENT * k, b) && |d.inodes| == |e.inodes|
    requires i < |d.inodes| && d.inodes[i].typ == Links.T_DIR && DirWhole(e, i)
    requires e.inodes[i] == d.inodes[i].(size := e.inodes[i].size, addrs := e.inodes[i].addrs)
    requires k <= |EntriesOn(d, i)| && EntriesOn(e, i) == Put(EntriesOn(d, i), k, x)
    ensures DirsWhole(e)
    ensures TreeOn(e) == TreeOn(d).(dirs := TreeOn(d).dirs[i := Put(TreeOn(d).dirs[i], k, x)])
  {
    hide KeepsRefs, EntriesOn, NoHoles, SameBytes, ByteWritten;
    TreeChangesAt(d, e, i);
    forall j: nat
      ensures DirWhole(e, j)
    {
      if j != i && j < |d.inodes| {
        WholeStays(d, e, j);
      }
    }
  }

  /** Fields of an inode changed that say nothing of its bytes. */
  lemma FieldsSet(d: Disk, i: nat, din: Dinode)
    requires DirsWhole(d) && i < |d.inodes|
    requires din == d.inodes[i].(major := din.major, minor := din.minor, nlink := din.nlink)
    ensures var e := d.(inodes := d.inodes[i := din]);
      DirsWhole(e) && TreeOn(e) == TreeOn(d).(nlink := TreeOn(d).nlink[i := din.nlink])
  {
    var e := d.(inodes := d.inodes[i := din]);
    InodeOnly(d, i, din);
    TreeChangesAt(d, e, i);
    assert EntriesOn(e, i) == EntriesOn(d, i) by {
      if d.inodes[i].size <= LIMIT {
        assert Contents(e, i) == Contents(d, i);
      }
    }
    forall j: nat
      ensures DirWhole(e, j)
    {
      assert DirWhole(d, j);
      if j < |d.inodes| {
        assert e.inodes[j].addrs == d.inodes[j].addrs;
        SameBlocksHere(d, e, j);
      }
    }
    assert TreeOn(e).typ == TreeOn(d).typ && TreeOn(e).dirs == TreeOn(d).dirs;
  }

  lemma SameBlocksHere(d: Disk, e: Disk, i: nat)
    requires i < |d.inodes| && i < |e.inodes| && e.blocks == d.blocks && e.inodes[i].addrs == d.inodes[i].addrs
    ensures forall bn: nat :: bn < MAXFILE ==> (HasBlock(e, i, bn) <==> HasBlock(d, i, bn))
    ensures SameBytes(d, e, i)
  {
  }

  lemma InodeOnly(d: Disk, i: nat, din: Dinode)
    requires i < |d.inodes|
    ensures var e := d.(inodes := d.inodes[i := din]);
      forall j: nat :: j < |d.inodes| && j != i ==> SameFile(d, e, j)
    ensures din.addrs == d.inodes[i].addrs ==> SameBytes(d, d.(inodes := d.inodes[i := din]), i)
  {
  }

  lemma FreedIs(d: Disk, owner: Owner, i: nat, e: Disk)
    requires IsFreed(d, owner, i, e)
    ensures i < |d.inodes| == |e.inodes| && e.blocks == d.blocks
    ensures e.inodes == d.inodes[i := d.inodes[i].(typ := 0, addrs := NO_ADDRS, size := 0)]
  {
    assert forall j: nat :: j < |d.inodes| && j != i ==>
             e.inodes[j] == e.inodes[i := e.inodes[i].(typ := d.inodes[i].typ)][j];
    assert e.inodes[i := e.inodes[i].(typ := d.inodes[i].typ)][i] == d.inodes[i].(addrs := NO_ADDRS, size := 0);
  }

  /** A free inode taken into use, or one emptied and given up. */
  lemma InodeEmptied(d: Disk, e: Disk, i: nat)
    requires DirsWhole(d) && i < |d.inodes| == |e.inodes| && e.blocks == d.blocks
    requires e.inodes == d.inodes[i := e.inodes[i]] && e.inodes[i].size == 0
    ensures DirsWhole(e)
    ensures TreeOn(e) == Links.Tree(TreeOn(d).typ[i := e.inodes[i].typ], TreeOn(d).nlink[i := e.inodes[i].nlink],
                                    TreeOn(d).dirs[i := []])
  {
    forall j: nat
      ensures DirWhole(e, j) && (j < |d.inodes| && j != i ==> SameFile(d, e, j))
    {
      assert DirWhole(d, j);
      if j < |d.inodes| && j != i {
        SameBlocksHere(d, e, j);
      }
    }
    TreeChangesAt(d, e, i);
    assert EntriesOn(e, i) == [];
  }
}
