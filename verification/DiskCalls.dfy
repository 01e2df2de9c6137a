/** `create`, `link` and `unlink` on the disk: the calls of module Sysfile once more, by way of the inode cache and
the bytes of the directories. Each changes the tree on the disk as its counterpart changes the lists.

A method ends where its call gives up its inodes; `Iput` is that `iput`. `None` is a panic.
 */
module DiskCalls {
  import opened Blocks
  import opened Ownership
  import opened Files
  import opened Dirents
  import opened Fs
  import opened DirFile
  import opened Trees
  import Links
  import Mkfs
  import Crash = CrashAtomicity

  /** The disk is in order, and its directories can be read, whatever the link counts are. */
  ghost predicate Sound(fs: FileSystem)
    reads fs
  {
    fs.Idle() && DirsWhole(fs.OnDisk()) && |fs.dinodes| <= INUM_RANGE
  }

  ghost function Tree(fs: FileSystem): Links.Tree
    reads fs
  {
    TreeOn(fs.OnDisk())
  }

  /** The caller refers to inode `i` as cache entry `ip`. */
  ghost predicate Refers(fs: FileSystem, ip: nat, i: nat)
    reads fs
  {
    ip < |fs.cache| && fs.cache[ip].ref > 0 && fs.cache[ip].inum == i < |fs.dinodes|
  }

  /** And has locked it. */
  ghost predicate Locks(fs: FileSystem, ip: nat, i: nat)
    reads fs
  {
    Refers(fs, ip, i) && fs.cache[ip].valid
  }

  /** What a locked inode is. */
  lemma LockedIs(fs: FileSystem, ip: nat, i: nat)
    requires Sound(fs) && Locks(fs, ip, i)
    ensures fs.Held(ip) && fs.Synced(ip) && fs.View(ip) == fs.OnDisk() && fs.cache[ip].din == fs.dinodes[i]
    ensures fs.cache[ip].din.typ == T_DIR ==> IsDir(fs, ip) && List(fs, ip) == Tree(fs).dirs[i]
  {
    hide Owned, NoHoles, Entries, Contents;
    assert FileSystem.EntryOk(fs.cache[ip], fs.dinodes);
    assert fs.View(ip) == fs.OnDisk();
    assert DirWhole(fs.OnDisk(), i);
    if fs.cache[ip].din.typ == T_DIR {
      WholeFits(fs.OnDisk(), i);
    }
  }

  lemma WholeFits(d: Disk, i: nat)
    requires DirWhole(d, i) && i < |d.inodes| && d.inodes[i].typ == Links.T_DIR
    ensures d.inodes[i].size <= LIMIT && EntriesOn(d, i) == Entries(Contents(d, i))
  {
  }

  /** `ilock` by a caller with a reference; false is its panic for a free inode. */
  method Lock(fs: FileSystem, ip: nat, ghost i: nat) returns (ok: bool)
    requires Sound(fs) && Refers(fs, ip, i)
    modifies fs
    ensures fs.OnDisk() == old(fs.OnDisk()) && fs.logged == old(fs.logged) && (ok <==> fs.dinodes[i].typ != 0)
    ensures ok ==>
              && Sound(fs) && Locks(fs, ip, i) && |fs.cache| == |old(fs.cache)|
              && fs.cache == old(fs.cache)[ip := fs.cache[ip]] && fs.cache[ip].ref == old(fs.cache)[ip].ref
  {
    hide Owned, DirsWhole;
    ok := fs.Ilock(ip);
  }

  /** Fields of a locked inode set, and `iupdate`. */
  method SetFields(fs: FileSystem, ip: nat, major: int, minor: int, nlink: int, ghost i: nat)
    requires Sound(fs) && Locks(fs, ip, i)
    modifies fs
    ensures Sound(fs) && Locks(fs, ip, i) && Tree(fs) == old(Tree(fs)).(nlink := old(Tree(fs)).nlink[i := nlink])
    ensures |fs.dinodes| == |old(fs.dinodes)|
    ensures fs.cache == old(fs.cache)[ip := old(fs.cache)[ip].(din := old(fs.cache)[ip].din.(
                                              major := major, minor := minor, nlink := nlink))]
    ensures fs.bitmap == old(fs.bitmap) && fs.blocks == old(fs.blocks)
    ensures fs.dinodes == old(fs.dinodes)[i := old(fs.dinodes)[i].(major := major, minor := minor, nlink := nlink)]
    ensures fs.logged == old(fs.logged) + {fs.IBlock(i)}
    ensures fs.Journaled(old(fs.OnDisk()), old(fs.logged), fs.OnDisk(), fs.logged)
  {
    hide Owned, DirsWhole, TreeOn;
    LockedIs(fs, ip, i);
    ghost var d := fs.OnDisk();
    ghost var din := fs.cache[ip].din.(major := major, minor := minor, nlink := nlink);
    MetaKeepsOwned(d, fs.owner, i, din);
    FieldsSet(d, i, din);
    fs.cache := fs.cache[ip := fs.cache[ip].(din := fs.cache[ip].din.(major := major, minor := minor, nlink := nlink))];
    fs.Iupdate(ip);
    assert fs.OnDisk() == d.(inodes := d.inodes[i := din]);
    forall c: nat | c < |fs.cache|
      ensures FileSystem.EntryOk(fs.cache[c], fs.dinodes)
    {
      assert old(FileSystem.EntryOk(fs.cache[c], fs.dinodes));
    }
  }

  /** The link count of a locked inode changed by `n`, and `iupdate`. */
  method AddLinks(fs: FileSystem, ip: nat, n: int, ghost i: nat)
    requires Sound(fs) && Locks(fs, ip, i)
    modifies fs
    ensures Sound(fs) && Locks(fs, ip, i) && |fs.dinodes| == |old(fs.dinodes)|
    ensures Tree(fs) == old(Tree(fs)).(nlink := old(Tree(fs)).nlink[i := old(Tree(fs)).nlink[i] + n])
    ensures fs.cache == old(fs.cache)[ip := fs.cache[ip]] && fs.cache[ip].ref == old(fs.cache)[ip].ref
    ensures fs.bitmap == old(fs.bitmap) && fs.blocks == old(fs.blocks)
    ensures fs.dinodes == old(fs.dinodes)[i := old(fs.dinodes)[i].(nlink := old(fs.dinodes)[i].nlink + n)]
    ensures fs.logged == old(fs.logged) + {fs.IBlock(i)}
    ensures fs.Journaled(old(fs.OnDisk()), old(fs.logged), fs.OnDisk(), fs.logged)
  {
    hide Sound, TreeOn, fs.Journaled;
    LockedIs(fs, ip, i);
    TypesOn(fs.OnDisk(), i);
    var din := fs.cache[ip].din;
    SetFields(fs, ip, din.major, din.minor, din.nlink + n, i);
  }

  /** `dirlink` by the holder of the directory. `Some(-1)` when the name is there. */
  method Enter(fs: FileSystem, dp: nat, name: seq<Byte>, inum: nat, ghost i: nat)
      returns (r: Option<int>, ghost k: nat, ghost data: set<nat>, ghost maps: set<nat>)
    requires Sound(fs) && Locks(fs, dp, i) && fs.dinodes[i].typ == T_DIR && Readable(name, DIRSIZ) &&
              inum < |fs.dinodes|
    requires forall e :: e in Tree(fs).dirs[i] ==> e.inum < |fs.dinodes|
    modifies fs
    ensures r == None || r == Some(-1) || r == Some(0)
    ensures r != None ==>
              && Sound(fs) && |fs.dinodes| == |old(fs.dinodes)| && |fs.cache| == |old(fs.cache)| && Locks(fs, dp, i)
              && (forall c: nat :: c < |fs.cache| && c != dp && old(fs.cache)[c].ref > 0 ==>
                   fs.cache[c] == old(fs.cache)[c])
              && fs.cache[dp].din.nlink == old(fs.cache)[dp].din.nlink && fs.dinodes[i].typ == T_DIR
    ensures r == Some(0) ==>
              && var t := old(Tree(fs));
              && Absent(t.dirs[i], Cut(name, DIRSIZ)) && FreeAt(t.dirs[i], k)
              && Tree(fs) == t.(dirs := t.dirs[i := Put(t.dirs[i], k, Dirent(inum, Cut(name, DIRSIZ)))])
    ensures r == Some(-1) ==>
              && fs.OnDisk() == old(fs.OnDisk())
              && FoundAt(Tree(fs).dirs[i], Cut(name, DIRSIZ), k) && Tree(fs).dirs[i][k].inum != i
    ensures r == None <==> Stops(old(Tree(fs)).dirs[i], Cut(name, DIRSIZ), i, k, old(fs.cache), old(fs.OnDisk()))
    ensures fs.Journaled(old(fs.OnDisk()), old(fs.logged), fs.OnDisk(), fs.logged)
    ensures r == Some(0) ==>
              Recorded(old(fs.OnDisk()), fs.OnDisk(), i, k, old(fs.logged), fs.logged, data, maps,
                       old(fs.Pointer(dp)), fs.Pointer(dp), fs.IBlock(i))
    ensures r == Some(-1) ==> fs.logged == old(fs.logged)
    ensures r == Some(0) ==> FilesKept(old(fs.OnDisk()), fs.OnDisk(), {})
  {
    hide Owned, NoHoles, Entries, Contents, Wrote, KeepsRefs, DirsWhole, fs.Journaled, FilesKept;
    LockedIs(fs, dp, i);
    ghost var d := fs.OnDisk();
    r, k, data, maps := Dirlink(fs, dp, name, inum);
    if r == Some(0) {
      ghost var b :| |b| == DIRENT && Wrote(d, fs.OnDisk(), i, DIRENT * k, b);
      KeptAroundWrite(d, fs.OnDisk(), i, DIRENT * k, b);
      WroteShape(d, fs.OnDisk(), i, DIRENT * k, b);
      assert fs.View(dp) == fs.OnDisk();
      assert DirWhole(fs.OnDisk(), i);
      WholeFits(fs.OnDisk(), i);
      assert DirWhole(d, i) by { LockedWasWhole(d, i); }
      EntrySet(d, fs.OnDisk(), i, k, b, Dirent(inum, Cut(name, DIRSIZ)));
    }
  }

  lemma LockedWasWhole(d: Disk, i: nat)
    requires DirsWhole(d)
    ensures DirWhole(d, i)
  {
  }

  /** `dirlookup` by the holder of the directory. */
  method Find(fs: FileSystem, dp: nat, name: seq<Byte>, ghost i: nat) returns (r: Found)
    requires Sound(fs) && Locks(fs, dp, i) && fs.dinodes[i].typ == T_DIR && Readable(name, DIRSIZ)
    requires forall e :: e in Tree(fs).dirs[i] ==> e.inum < |fs.dinodes|
    modifies fs
    ensures fs.OnDisk() == old(fs.OnDisk()) && fs.logged == old(fs.logged)
    ensures r != Stopped ==> Sound(fs) && Locks(fs, dp, i)
    ensures r == Missing ==> fs.cache == old(fs.cache)
    ensures r == Missing ==> Absent(Tree(fs).dirs[i], Cut(name, DIRSIZ))
    ensures r.Entry? ==>
              && FoundAt(Tree(fs).dirs[i], Cut(name, DIRSIZ), r.k) && Refers(fs, r.ip, Tree(fs).dirs[i][r.k].inum)
              && !FileSystem.NoneLeft(old(fs.cache), Tree(fs).dirs[i][r.k].inum)
    ensures r == Stopped ==>
              exists k: nat ::
                && FoundAt(Tree(fs).dirs[i], Cut(name, DIRSIZ), k)
                && FileSystem.NoneLeft(old(fs.cache), Tree(fs).dirs[i][k].inum)
  {
    hide Owned, TreeOn, NoHoles, DirsWhole, Cut;
    LockedIs(fs, dp, i);
    ghost var es := List(fs, dp);
    r := Dirlookup(fs, dp, name);
    if r.Entry? {
      assert es[r.k] in es;
    } else if r == Stopped {
      ghost var k: nat :| FoundAt(es, Cut(name, DIRSIZ), k) && FileSystem.NoneLeft(old(fs.cache), es[k].inum);
      assert es == Tree(fs).dirs[i];
    }
  }

  /** What entering records in a directory logs. */
  ghost predicate LogsAtMost(was: set<nat>, now: set<nat>, wrote: set<nat>, n: nat) {
    now <= was + wrote && |wrote| <= n
  }

  lemma AtMost(a: set<nat>, b: set<nat>)
    ensures |a + b| <= |a| + |b|
  {
  }

  lemma RecordLogs(d: Disk, e: Disk, i: nat, k: nat, was: set<nat>, now: set<nat>, data: set<nat>, maps: set<nat>,
                   p0: set<nat>, p: set<nat>, ib: nat)
    requires Recorded(d, e, i, k, was, now, data, maps, p0, p, ib) && |p| <= 1
    ensures LogsAtMost(was, now, data + maps + p + {ib}, 5)
  {
    AtMost(data, maps);
    AtMost(data + maps, p);
    AtMost(data + maps + p, {ib});
  }

  /** The first record of an empty directory takes a block, the second goes to the same. */
  lemma DotsNeed(d: Disk, i: nat)
    requires i < |d.inodes| && d.inodes[i].addrs == NO_ADDRS
    ensures HasRoom(d, i, 0) <==> FreeCount(d.bitmap) > 0
    ensures Need(d, i, 0) == 1
  {
  }

  lemma DotsHave(d: Disk, i: nat)
    requires i < |d.inodes| && DirWhole(d, i) && d.inodes[i].typ == Links.T_DIR && |EntriesOn(d, i)| == 1
    ensures HasRoom(d, i, DIRENT) && Need(d, i, 0) == 0 && FileSystem.Saved(d, i, DIRENT) == 1
  {
    assert d.inodes[i].size >= DIRENT;
    assert HasBlock(d, i, 0);
  }

  lemma DotsLog(d: Disk, e: Disk, f: Disk, i: nat, was: set<nat>, mid: set<nat>, now: set<nat>, data: set<nat>,
                maps: set<nat>, more: set<nat>, maps': set<nat>, p0: set<nat>, p: set<nat>, q: set<nat>, ib: nat)
    requires Recorded(d, e, i, 0, was, mid, data, maps, p0, p, ib)
    requires Recorded(e, f, i, 1, mid, now, more, maps', p, q, ib)
    requires FileSystem.Saved(e, i, DIRENT) == 1 && Need(e, i, 0) == 0 && |q| <= 1
    ensures LogsAtMost(was, now, data + maps + maps' + q + {ib}, 5)
    ensures FreeCount(f.bitmap) == FreeCount(d.bitmap) - Need(d, i, 0) && OthersRefs(d, f, i)
  {
    OthersRefsTwice(d, e, f, i);
    hide OthersRefs, Need, FileSystem.Saved;
    assert SlotOf(DIRENT / BSIZE) == 0;
    assert more == data && |data| == 1;
    DotsLogAtMost(was, mid, now, data, maps, maps', p, q, ib);
  }

  lemma DotsLogAtMost(was: set<nat>, mid: set<nat>, now: set<nat>, data: set<nat>, maps: set<nat>, maps': set<nat>,
                      p: set<nat>, q: set<nat>, ib: nat)
    requires mid <= was + data + maps + p + {ib} && now <= mid + data + maps' + q + {ib} && p <= q
    requires |data| == 1 && |maps| <= 1 + |p| && |maps'| + |p| <= |q| <= 1
    ensures LogsAtMost(was, now, data + maps + maps' + q + {ib}, 5)
  {
    AtMost(data, maps);
    AtMost(data + maps, maps');
    AtMost(data + maps + maps', q);
    AtMost(data + maps + maps' + q, {ib});
  }

  /** The second entry always has room. */
  method EnterDotDot(fs: FileSystem, ip: nat, ghost ino: nat, inum: nat)
      returns (ghost data: set<nat>, ghost maps: set<nat>)
    requires Sound(fs) && Locks(fs, ip, ino) && fs.dinodes[ino].typ == T_DIR && 0 < ino && inum < |fs.dinodes|
    requires Tree(fs).dirs[ino] == [Dirent(ino, Links.DOT)]
    modifies fs
    ensures Sound(fs) && |fs.dinodes| == |old(fs.dinodes)| && |fs.cache| == |old(fs.cache)| && Locks(fs, ip, ino)
    ensures forall c: nat :: c < |fs.cache| && c != ip && old(fs.cache)[c].ref > 0 ==> fs.cache[c] == old(fs.cache)[c]
    ensures var t := old(Tree(fs));
      Tree(fs) == t.(dirs := t.dirs[ino := [Dirent(ino, Links.DOT), Dirent(inum, Links.DOTDOT)]])
    ensures FileSystem.Saved(old(fs.OnDisk()), ino, DIRENT) == 1 && Need(old(fs.OnDisk()), ino, 0) == 0
    ensures Recorded(old(fs.OnDisk()), fs.OnDisk(), ino, 1, old(fs.logged), fs.logged, data, maps,
                     old(fs.Pointer(ip)), fs.Pointer(ip), fs.IBlock(ino))
    ensures fs.Journaled(old(fs.OnDisk()), old(fs.logged), fs.OnDisk(), fs.logged)
    ensures FilesKept(old(fs.OnDisk()), fs.OnDisk(), {})
  {
    hide Sound, TreeOn, Cut, HasRoom, Need, Recorded, FreeCount, fs.Journaled, DirWhole, EntriesOn, FileSystem.Saved,
        FilesKept;
    Links.CutDots();
    OneEntry(fs, ip, ino);
    DotsHave(fs.OnDisk(), ino);
    assert |Links.DOT| != |Links.DOTDOT|;
    assert !Names(Dirent(ino, Links.DOT), Links.DOTDOT);
    var b;
    ghost var k;
    b, k, data, maps := Enter(fs, ip, Links.DOTDOT + [0], inum, ino);
    assert b == Some(0);
    assert k == 1;
    assert Tree(fs).dirs[ino] == [Dirent(ino, Links.DOT), Dirent(inum, Links.DOTDOT)];
  }

  /** The entries "." and ".." of a new directory, for which a block must be free. */
  method EnterDots(fs: FileSystem, ip: nat, ghost ino: nat, inum: nat) returns (ok: bool, ghost wrote: set<nat>)
    requires Sound(fs) && Locks(fs, ip, ino) && fs.dinodes[ino].typ == T_DIR && 0 < ino && inum < |fs.dinodes|
    requires Tree(fs).dirs[ino] == [] && fs.dinodes[ino].addrs == NO_ADDRS
    modifies fs
    ensures ok <==> FreeCount(old(fs.bitmap)) > 0
    ensures ok ==>
              && Sound(fs) && |fs.dinodes| == |old(fs.dinodes)| && |fs.cache| == |old(fs.cache)| && Locks(fs, ip, ino)
              && (forall c: nat :: c < |fs.cache| && c != ip && old(fs.cache)[c].ref > 0 ==>
                   fs.cache[c] == old(fs.cache)[c])
              && var t := old(Tree(fs));
              Tree(fs) == t.(dirs := t.dirs[ino := [Dirent(ino, Links.DOT), Dirent(inum, Links.DOTDOT)]])
    ensures ok ==> FreeCount(fs.bitmap) == FreeCount(old(fs.bitmap)) - 1
    ensures ok ==> OthersRefs(old(fs.OnDisk()), fs.OnDisk(), ino)
    ensures ok ==> LogsAtMost(old(fs.logged), fs.logged, wrote, 5) && fs.IBlock(ino) in wrote
    ensures ok ==> fs.Journaled(old(fs.OnDisk()), old(fs.logged), fs.OnDisk(), fs.logged)
    ensures ok ==> FilesKept(old(fs.OnDisk()), fs.OnDisk(), {})
  {
    hide Sound, TreeOn, Cut, HasRoom, Need, Recorded, LogsAtMost, FreeCount, fs.Journaled, OthersRefs, DirWhole,
        EntriesOn, FileSystem.Saved, FilesKept;
    Links.CutDots();
    DotsNeed(fs.OnDisk(), ino);
    ghost var d, was, p0 := fs.OnDisk(), fs.logged, fs.Pointer(ip);
    var a, j, data, maps := Enter(fs, ip, Links.DOT + [0], fs.cache[ip].inum, ino);
    if a != Some(0) {
      return false, {};
    }
    assert Tree(fs).dirs[ino] == [Dirent(ino, Links.DOT)];
    ghost var e, mid, p := fs.OnDisk(), fs.logged, fs.Pointer(ip);
    ghost var more, maps' := EnterDotDot(fs, ip, ino, inum);
    assert Tree(fs).dirs == old(Tree(fs)).dirs[ino := Tree(fs).dirs[ino]];
    fs.PointerIsOne(ip);
    DotsLog(d, e, fs.OnDisk(), ino, was, mid, fs.logged, data, maps, more, maps', p0, p, fs.Pointer(ip),
        fs.IBlock(ino));
    fs.JournaledTwice(d, was, e, mid, fs.OnDisk(), fs.logged);
    FilesKeptTwice(d, e, fs.OnDisk(), {});
    return true, data + maps + maps' + fs.Pointer(ip) + {fs.IBlock(ino)};
  }

  lemma OneEntry(fs: FileSystem, ip: nat, i: nat)
    requires Sound(fs) && Locks(fs, ip, i) && fs.dinodes[i].typ == T_DIR
    ensures DirWhole(fs.OnDisk(), i) && EntriesOn(fs.OnDisk(), i) == Tree(fs).dirs[i]
  {
    LockedWasWhole(fs.OnDisk(), i);
  }

  /** A new inode of type `ty`, read into the cache, with one link; the directory gains one for its "..". `None` when
      no inode is free or the cache has no room for it. */
  method NewInode(fs: FileSystem, dp: nat, ty: int, major: int, minor: int, ghost i: nat)
      returns (r: Option<nat>)
    requires Sound(fs) && Locks(fs, dp, i) && Links.TreeOk(Tree(fs)) && fs.dinodes[i].typ == T_DIR && ty != 0
    modifies fs
    ensures r == None <==> NoInode(old(fs.dinodes), old(fs.cache))
    ensures r.Some? ==>
              && Sound(fs) && Locks(fs, dp, i) && r.value < |fs.cache| && r.value != dp &&
                   |fs.dinodes| == |old(fs.dinodes)|
              && var ino, t := fs.cache[r.value].inum, old(Tree(fs));
              && Locks(fs, r.value, ino) && 0 < ino < |t.typ| && ino != i && t.typ[ino] == 0 && t.dirs[ino] == []
              && fs.dinodes[ino].typ == ty && fs.dinodes[i].typ == T_DIR && fs.dinodes[ino].addrs == NO_ADDRS
              && Tree(fs) == Links.Tree(t.typ[ino := ty], if ty == T_DIR then t.nlink[ino := 1][i := t.nlink[i] + 1]
                                                          else t.nlink[ino := 1], t.dirs)
              && fs.logged <= old(fs.logged) + {fs.IBlock(ino)} + (if ty == T_DIR then {fs.IBlock(i)} else {})
    ensures r.Some? ==> fs.bitmap == old(fs.bitmap) && fs.blocks == old(fs.blocks)
    ensures r.Some? ==>
              && var ino := fs.cache[r.value].inum;
              && fs.dinodes == old(fs.dinodes)[ino := Dinode(ty, major, minor, 1, 0, NO_ADDRS)][i := fs.dinodes[i]]
              && fs.dinodes[i] == old(fs.dinodes)[i].(nlink := fs.dinodes[i].nlink)
    ensures r.Some? ==> fs.Journaled(old(fs.OnDisk()), old(fs.logged), fs.OnDisk(), fs.logged)
  {
    hide Sound, TreeOn, Links.TreeOk, fs.Journaled, NoInode;
    ghost var d, was, t := fs.OnDisk(), fs.logged, Tree(fs);
    TypesOn(d, i);
    r := FreshInode(fs, dp, ty, i);
    if r == None {
      return;
    }
    var ip := r.value;
    ghost var ino, e, mid := fs.cache[ip].inum, fs.OnDisk(), fs.logged;
    SetFields(fs, ip, major, minor, 1, ino);
    fs.JournaledTwice(d, was, e, mid, fs.OnDisk(), fs.logged);
    if ty == T_DIR {
      e, mid := fs.OnDisk(), fs.logged;
      AddLinks(fs, dp, 1, i);
      fs.JournaledTwice(d, was, e, mid, fs.OnDisk(), fs.logged);
    }
  }

  /** `ialloc` and `ilock`. */
  method FreshInode(fs: FileSystem, dp: nat, ty: int, ghost i: nat) returns (r: Option<nat>)
    requires Sound(fs) && Locks(fs, dp, i) && Links.TreeOk(Tree(fs)) && fs.dinodes[i].typ == T_DIR && ty != 0
    modifies fs
    ensures r == None <==> NoInode(old(fs.dinodes), old(fs.cache))
    ensures r.Some? ==>
              && Sound(fs) && Locks(fs, dp, i) && r.value < |fs.cache| && r.value != dp
              && var ino, t := fs.cache[r.value].inum, old(Tree(fs));
              && Locks(fs, r.value, ino) && 0 < ino < |t.typ| && ino != i && t.typ[ino] == 0 && t.dirs[ino] == []
              && fs.dinodes == old(fs.dinodes)[ino := Dinode(ty, 0, 0, 0, 0, NO_ADDRS)]
              && Tree(fs) == t.(typ := t.typ[ino := ty], nlink := t.nlink[ino := 0])
              && fs.bitmap == old(fs.bitmap) && fs.blocks == old(fs.blocks)
              && fs.logged == old(fs.logged) + {fs.IBlock(ino)}
              && fs.Journaled(old(fs.OnDisk()), old(fs.logged), fs.OnDisk(), fs.logged)
  {
    hide Owned, DirsWhole, TreeOn, Links.TreeOk, fs.Journaled;
    ghost var d := fs.OnDisk();
    r := fs.Ialloc(ty);
    if r == None {
      return;
    }
    var ip := r.value;
    ghost var ino := fs.cache[ip].inum;
    InodeEmptied(d, fs.OnDisk(), ino);
    TypesOn(d, ino);
    Links.LinksAreCounted(TreeOn(d), ino);
    assert TreeOn(fs.OnDisk()).dirs == TreeOn(d).dirs;
    var ok := Lock(fs, ip, ino);
    assert ok;
  }

  /** No inode is free, or the cache has no room for the first that is. */
  ghost predicate NoInode(dinodes: seq<Dinode>, cache: seq<Incore>) {
    forall j: nat :: FileSystem.IsFirstFree(dinodes, j) ==> FileSystem.NoneLeft(cache, j)
  }

  /** The entries of a directory of a tree in order name inodes. */
  lemma EntriesInRange(t: Links.Tree, i: nat)
    requires Links.TreeOk(t) && i < |t.typ| && t.typ[i] == Links.T_DIR
    ensures forall e :: e in t.dirs[i] ==> e.inum < |t.typ|
  {
    assert Links.DirOk(t, i);
  }

  /** Directory `i`, whose records before `k` are taken and which has no more, cannot grow once `taken` blocks are
    gone. */
  ghost predicate CannotGrow(d: Disk, i: nat, es: seq<Dirent>, k: nat, taken: nat)
    requires i < |d.inodes|
  {
    && FreeAt(es, k) && k == |es|
    && (DIRENT * k + DIRENT > LIMIT || FreeCount(d.bitmap) < taken + Need(d, i, DIRENT * k / BSIZE))
  }

  /** What stops `create` when the name is not there: no inode for the file, no block for the entries of a new
      directory, or none for the entry in this one. */
  ghost predicate NewStops(d: Disk, cache: seq<Incore>, i: nat, es: seq<Dirent>, ty: int)
    requires i < |d.inodes|
  {
    || NoInode(d.inodes, cache)
    || FreeCount(d.bitmap) < Dots(ty)
    || IsFull(d, i, es, Dots(ty))
  }

  /** How many blocks the entries of a new inode take. */
  function Dots(ty: int): nat {
    if ty == T_DIR then 1 else 0
  }

  ghost predicate IsFull(d: Disk, i: nat, es: seq<Dirent>, taken: nat)
    requires i < |d.inodes|
  {
    exists k: nat :: CannotGrow(d, i, es, k, taken)
  }

  /** What stops `create`: those, or the name is there of an inode that is free or has no room in the cache. */
  ghost predicate CreateStops(d: Disk, cache: seq<Incore>, i: nat, name: seq<Byte>, ty: int)
    requires i < |d.inodes|
  {
    var es := EntriesOn(d, i);
    if Absent(es, name) then NewStops(d, cache, i, es, ty)
    else exists k: nat :: FoundAt(es, name, k) && BadInode(d, cache, es[k].inum)
  }

  ghost predicate BadInode(d: Disk, cache: seq<Incore>, ino: nat) {
    FileSystem.NoneLeft(cache, ino) || (ino < |d.inodes| && d.inodes[ino].typ == 0)
  }

  /** The room in directory `i` after another inode took blocks. */
  lemma RoomAfter(d: Disk, e: Disk, f: Disk, i: nat, ino: nat, off: nat, taken: nat)
    requires i < |d.inodes| && i < |e.inodes| && i < |f.inodes| && i != ino
    requires e.bitmap == d.bitmap && e.blocks == d.blocks && e.inodes[i].addrs == d.inodes[i].addrs
    requires OthersRefs(e, f, ino) && FreeCount(f.bitmap) == FreeCount(e.bitmap) - taken
    ensures HasRoom(f, i, off) <==>
              off / BSIZE < MAXFILE && FreeCount(d.bitmap) >= taken + Need(d, i, off / BSIZE)
  {
    if off / BSIZE < MAXFILE {
      var s, p := Slot(i, SlotOf(off / BSIZE)), Slot(i, INDIRECT);
      assert IsSlot(e, s) && IsSlot(e, p);
      assert Ref(f, s) == Ref(e, s) == Ref(d, s) && Ref(f, p) == Ref(e, p) == Ref(d, p);
      assert HasBlock(f, i, off / BSIZE) <==> HasBlock(d, i, off / BSIZE);
    }
  }

  lemma FreeAtOnce(es: seq<Dirent>, k: nat, j: nat)
    requires FreeAt(es, k) && FreeAt(es, j)
    ensures j == k
  {
  }

  /** Whether `create` stops at its last step, seen from its start. */
  lemma LastStops(d: Disk, f: Disk, cache: seq<Incore>, now: seq<Incore>, i: nat, es: seq<Dirent>, name: seq<Byte>,
                  k: nat, ty: int)
    requires i < |d.inodes| && i < |f.inodes| && Absent(es, name) && FreeAt(es, k)
    requires !NoInode(d.inodes, cache) && FreeCount(d.bitmap) >= Dots(ty)
    requires DIRENT * k + DIRENT <= LIMIT ==>
               (HasRoom(f, i, DIRENT * k) <==>
                  FreeCount(d.bitmap) >= Dots(ty) + Need(d, i, DIRENT * k / BSIZE))
    ensures Stops(es, name, i, k, now, f) <==> NewStops(d, cache, i, es, ty)
  {
    hide HasRoom, FreeCount, Need, NoInode, Absent;
    NotFound(es, name, k);
    forall j: nat | CannotGrow(d, i, es, j, Dots(ty))
      ensures j == k
    {
      FreeAtOnce(es, k, j);
    }
    assert Stops(es, name, i, k, now, f) <==> CannotGrow(d, i, es, k, Dots(ty));
  }

  lemma NotFound(es: seq<Dirent>, name: seq<Byte>, k: nat)
    requires Absent(es, name)
    ensures !FoundAt(es, name, k)
  {
  }

  /** `create` in directory `dp`. The disk changes as the lists do, and `wrote` are the blocks it logs. */
  method Create(fs: FileSystem, dp: nat, name: seq<Byte>, ty: int, major: int, minor: int, ghost i: nat)
      returns (r: Links.Outcome, ghost k: nat, ghost wrote: set<nat>)
    requires Sound(fs) && Links.TreeOk(Tree(fs)) && Refers(fs, dp, i) && fs.dinodes[i].typ == T_DIR
    requires Readable(name, DIRSIZ) && ty != 0
    modifies fs
    ensures r == Links.Panicked <==> CreateStops(old(fs.OnDisk()), old(fs.cache), i, Cut(name, DIRSIZ), ty)
    ensures r.Made? ==>
              && Sound(fs) && r.ip < |fs.cache|
              && var t, ino, nm := old(Tree(fs)), fs.cache[r.ip].inum, Cut(name, DIRSIZ);
              && Locks(fs, r.ip, ino) && Links.CanCreate(t, i, nm, ino, ty, k)
              && Tree(fs) == Links.Created(t, i, nm, ino, ty, k) && (Links.TreeOk(Tree(fs)) <==> t.nlink[i] != 0)
              && IsNew(fs.OnDisk(), ino, ty, major, minor, 1) && FilesKept(old(fs.OnDisk()), fs.OnDisk(), {ino})
    ensures r.Made? ==>
              && LogsAtMost(old(fs.logged), fs.logged, wrote, Crash.MAXOPBLOCKS)
              && fs.Journaled(old(fs.OnDisk()), old(fs.logged), fs.OnDisk(), fs.logged)
    ensures r.Reused? || r == Links.Refused ==>
              && Sound(fs) && fs.OnDisk() == old(fs.OnDisk()) && fs.logged == old(fs.logged)
              && FoundAt(Tree(fs).dirs[i], Cut(name, DIRSIZ), k)
              && var ino := Tree(fs).dirs[i][k].inum;
              && ino < |fs.dinodes| && (r.Reused? <==> ty == 2 == fs.dinodes[ino].typ) &&
                   (r.Reused? ==> Locks(fs, r.ip, ino))
  {
    hide Sound, TreeOn, Links.TreeOk, Cut, fs.Journaled, LogsAtMost, NewStops, IsNew, FilesKept;
    ghost var t, was, d, nm := Tree(fs), fs.cache, fs.OnDisk(), Cut(name, DIRSIZ);
    TypesOn(d, i);
    EntriesInRange(t, i);
    var ok := Lock(fs, dp, i);
    SameRoom(was, fs.cache);
    assert t.dirs[i] == EntriesOn(d, i) by {
      EntriesAre(d, i);
    }
    var found := Find(fs, dp, name, i);
    wrote := {};
    if found == Stopped {
      ghost var j: nat :| FoundAt(t.dirs[i], nm, j) && FileSystem.NoneLeft(was, t.dirs[i][j].inum);
      assert BadInode(d, was, t.dirs[i][j].inum);
      return Links.Panicked, 0, {};
    }
    if found.Entry? {
      k := found.k;
      ghost var ino := t.dirs[i][k].inum;
      FoundOnce(t.dirs[i], nm, k);
      ok := Lock(fs, found.ip, ino);
      if !ok {
        assert BadInode(d, was, ino);
        return Links.Panicked, k, {};
      }
      LockedIs(fs, found.ip, ino);
      return if ty == T_FILE && fs.cache[found.ip].din.typ == T_FILE then Links.Reused(found.ip)
          else Links.Refused, k, {};
    }
    NewStopsAsBefore(d, was, fs.cache, i, t.dirs[i], ty);
    r, k, wrote := CreateNew(fs, dp, name, ty, major, minor, i);
  }

  lemma NewStopsAsBefore(d: Disk, was: seq<Incore>, now: seq<Incore>, i: nat, es: seq<Dirent>, ty: int)
    requires i < |d.inodes| && forall j: nat :: FileSystem.NoneLeft(now, j) <==> FileSystem.NoneLeft(was, j)
    ensures NewStops(d, now, i, es, ty) <==> NewStops(d, was, i, es, ty)
  {
  }

  /** The rest of `create`, when the name is not there. */
  method CreateNew(fs: FileSystem, dp: nat, name: seq<Byte>, ty: int, major: int, minor: int, ghost i: nat)
      returns (r: Links.Outcome, ghost k: nat, ghost wrote: set<nat>)
    requires Sound(fs) && Links.TreeOk(Tree(fs)) && Locks(fs, dp, i) && fs.dinodes[i].typ == T_DIR
    requires Readable(name, DIRSIZ) && ty != 0 && Absent(Tree(fs).dirs[i], Cut(name, DIRSIZ))
    modifies fs
    ensures r.Made? || r == Links.Panicked
    ensures r == Links.Panicked <==> NewStops(old(fs.OnDisk()), old(fs.cache), i, old(Tree(fs)).dirs[i], ty)
    ensures r.Made? ==>
              && Sound(fs) && r.ip < |fs.cache|
              && var t, ino, nm := old(Tree(fs)), fs.cache[r.ip].inum, Cut(name, DIRSIZ);
              && Locks(fs, r.ip, ino) && Links.CanCreate(t, i, nm, ino, ty, k)
              && Tree(fs) == Links.Created(t, i, nm, ino, ty, k) && (Links.TreeOk(Tree(fs)) <==> t.nlink[i] != 0)
              && IsNew(fs.OnDisk(), ino, ty, major, minor, 1) && FilesKept(old(fs.OnDisk()), fs.OnDisk(), {ino})
    ensures r.Made? ==>
              && LogsAtMost(old(fs.logged), fs.logged, wrote, Crash.MAXOPBLOCKS)
              && fs.Journaled(old(fs.OnDisk()), old(fs.logged), fs.OnDisk(), fs.logged)
  {
    hide Sound, TreeOn, Links.TreeOk, Cut, fs.Journaled, LogsAtMost, Recorded, HasRoom, Need, FreeCount, OthersRefs,
        IsNew, FilesKept;
    ghost var t, d, was, logs := Tree(fs), fs.OnDisk(), fs.cache, fs.logged;
    TypesOn(d, i);
    EntriesInRange(t, i);
    var new' := NewInode(fs, dp, ty, major, minor, i);
    if new' == None {
      return Links.Panicked, 0, {};
    }
    var ip := new'.value;
    ghost var ino, e, mid := fs.cache[ip].inum, fs.OnDisk(), fs.logged;
    TypesOn(e, i);
    NewIsKept(d, e, i, ino, ty, major, minor);
    ghost var dots := {fs.IBlock(ino)};
    OthersRefsItself(e, ino);
    assert LogsAtMost(mid, mid, dots, 5) by { NothingMore(mid, fs.IBlock(ino)); }
    if ty == T_DIR {
      var ok;
      ok, dots := EnterDots(fs, ip, ino, fs.cache[dp].inum);
      if !ok {
        return Links.Panicked, 0, {};
      }
      fs.JournaledTwice(d, logs, e, mid, fs.OnDisk(), fs.logged);
    }
    ghost var f, logs', p, cache := fs.OnDisk(), fs.logged, fs.Pointer(dp), fs.cache;
    TypesOn(f, i);
    StaysNew(d, e, f, ino, ty, major, minor);
    assert Tree(fs).dirs[i] == t.dirs[i];
    var at;
    ghost var data, maps;
    at, k, data, maps := Enter(fs, dp, name, fs.cache[ip].inum, i);
    RoomAfter(d, e, f, i, ino, DIRENT * k, Dots(ty));
    LastStops(d, f, was, cache, i, t.dirs[i], Cut(name, DIRSIZ), k, ty);
    if at == None {
      return Links.Panicked, 0, {};
    }
    fs.JournaledTwice(d, logs, f, logs', fs.OnDisk(), fs.logged);
    StaysNew(d, f, fs.OnDisk(), ino, ty, major, minor);
    fs.PointerIsOne(dp);
    wrote := dots + (data + maps + fs.Pointer(dp) + {fs.IBlock(i)});
    CreateLogs(f, fs.OnDisk(), i, k, logs, mid, logs', fs.logged, dots, data, maps, p, fs.Pointer(dp), fs.IBlock(ino),
               fs.IBlock(i));
    TypesOn(fs.OnDisk(), ino);
    r := Links.Made(ip);
    Links.CreateIsRightExactly(t, i, Cut(name, DIRSIZ), ino, ty, k);
    assert Tree(fs).dirs == Links.Created(t, i, Cut(name, DIRSIZ), ino, ty, k).dirs;
    assert Tree(fs).nlink == Links.Created(t, i, Cut(name, DIRSIZ), ino, ty, k).nlink;
  }

  /** Inode `i` has the type and the device numbers asked for, and, if it is no directory, nothing in it. */
  ghost predicate IsNew(d: Disk, i: nat, ty: int, major: int, minor: int, nlink: int) {
    && i < |d.inodes| && d.inodes[i].typ == ty && d.inodes[i].major == major && d.inodes[i].minor == minor
    && d.inodes[i].nlink == nlink && (ty != T_DIR ==> d.inodes[i].size == 0 && d.inodes[i].addrs == NO_ADDRS)
  }

  lemma NewIsKept(d: Disk, e: Disk, i: nat, ino: nat, ty: int, major: int, minor: int)
    requires i < |d.inodes| == |e.inodes| && ino < |d.inodes| && ino != i && e.blocks == d.blocks
    requires e.inodes == d.inodes[ino := Dinode(ty, major, minor, 1, 0, NO_ADDRS)][i := e.inodes[i]]
    requires e.inodes[i] == d.inodes[i].(nlink := e.inodes[i].nlink)
    ensures FilesKept(d, e, {ino}) && FilesKept(e, e, {}) && IsNew(e, ino, ty, major, minor, 1)
  {
    forall j: nat | j != ino
      ensures FileKept(d, e, j) && FileKept(e, e, ino)
    {
    }
  }

  /** It stays so while directories are written to. */
  lemma StaysNew(d: Disk, e: Disk, f: Disk, ino: nat, ty: int, major: int, minor: int)
    requires FilesKept(d, e, {ino}) && FilesKept(e, f, {}) && ino < |e.inodes|
    requires IsNew(e, ino, ty, major, minor, e.inodes[ino].nlink)
    ensures FilesKept(d, f, {ino}) && |f.inodes| == |e.inodes|
    ensures IsNew(f, ino, ty, major, minor, f.inodes[ino].nlink)
  {
    FilesKeptTwice(d, e, f, {ino});
    assert FileKept(e, f, ino);
  }

  lemma NothingMore(logs: set<nat>, b: nat)
    ensures LogsAtMost(logs, logs, {b}, 5) && LogsAtMost(logs, logs + {b}, {b}, 5)
  {
  }

  lemma CreateLogs(f: Disk, g: Disk, i: nat, k: nat, was: set<nat>, mid: set<nat>, late: set<nat>, now: set<nat>,
                   dots: set<nat>, data: set<nat>, maps: set<nat>, p0: set<nat>, p: set<nat>, nb: nat, ib: nat)
    requires mid <= was + {nb, ib} && LogsAtMost(mid, late, dots, 5) && nb in dots
    requires Recorded(f, g, i, k, late, now, data, maps, p0, p, ib) && |p| <= 1
    ensures LogsAtMost(was, now, dots + (data + maps + p + {ib}), Crash.MAXOPBLOCKS)
  {
    RecordLogs(f, g, i, k, late, now, data, maps, p0, p, ib);
    assert |dots + (data + maps + p + {ib})| <= |dots| + |data + maps + p + {ib}|;
  }

  /** `link` of inode `ip` in directory `dp`. `None` when `dirlink` stops, on a panic or on its caller's own lock. */
  method Link(fs: FileSystem, ip: nat, dp: nat, name: seq<Byte>, ghost ino: nat, ghost i: nat)
      returns (r: Option<int>, ghost k: nat, ghost wrote: set<nat>)
    requires Sound(fs) && Links.TreeOk(Tree(fs)) && Refers(fs, ip, ino) && Refers(fs, dp, i)
    requires fs.dinodes[ino].typ != 0 && fs.dinodes[i].typ == T_DIR && Readable(name, DIRSIZ)
    modifies fs
    ensures r == None || r == Some(0) || r == Some(-1)
    ensures r == Some(0) ==>
              && Sound(fs) && Links.CanLink(old(Tree(fs)), ino, i, Cut(name, DIRSIZ), k)
              && Tree(fs) == Links.Linked(old(Tree(fs)), ino, i, Cut(name, DIRSIZ), k)
              && (Links.TreeOk(Tree(fs)) <==> old(Tree(fs)).nlink[i] != 0)
              && FilesKept(old(fs.OnDisk()), fs.OnDisk(), {})
    ensures r == Some(-1) ==>
              && Sound(fs) && fs.OnDisk() == old(fs.OnDisk())
              && (old(fs.dinodes)[ino].typ == T_DIR
                  || (FoundAt(Tree(fs).dirs[i], Cut(name, DIRSIZ), k) && Tree(fs).dirs[i][k].inum != i))
    ensures r == None <==>
              && old(fs.dinodes)[ino].typ != T_DIR
              && Stops(old(Tree(fs)).dirs[i], Cut(name, DIRSIZ), i, k, old(fs.cache), old(fs.OnDisk()))
    ensures r != None ==>
              && LogsAtMost(old(fs.logged), fs.logged, wrote, 6)
              && fs.Journaled(old(fs.OnDisk()), old(fs.logged), fs.OnDisk(), fs.logged)
  {
    fs.JournaledItself();
    NothingLogged(fs.logged);
    hide Sound, TreeOn, Links.TreeOk, Cut, HasRoom, fs.Journaled, LogsAtMost, FilesKept;
    ghost var was := fs.cache;
    TypesOn(fs.OnDisk(), i);
    var ok := Lock(fs, ip, ino);
    LockedIs(fs, ip, ino);
    if fs.cache[ip].din.typ == T_DIR {
      return Some(-1), 0, {};
    }
    SameRoom(was, fs.cache);
    r, k, wrote := LinkFile(fs, ip, dp, name, ino, i);
  }

  /** The rest of `link`, for an inode that is no directory. */
  method LinkFile(fs: FileSystem, ip: nat, dp: nat, name: seq<Byte>, ghost ino: nat, ghost i: nat)
      returns (r: Option<int>, ghost k: nat, ghost wrote: set<nat>)
    requires Sound(fs) && Links.TreeOk(Tree(fs)) && Locks(fs, ip, ino) && Refers(fs, dp, i)
    requires fs.dinodes[ino].typ != 0 && fs.dinodes[ino].typ != T_DIR && fs.dinodes[i].typ == T_DIR
    requires Readable(name, DIRSIZ)
    modifies fs
    ensures r == None || r == Some(0) || r == Some(-1)
    ensures r == Some(0) ==>
              && Sound(fs) && Links.CanLink(old(Tree(fs)), ino, i, Cut(name, DIRSIZ), k)
              && Tree(fs) == Links.Linked(old(Tree(fs)), ino, i, Cut(name, DIRSIZ), k)
              && (Links.TreeOk(Tree(fs)) <==> old(Tree(fs)).nlink[i] != 0)
              && FilesKept(old(fs.OnDisk()), fs.OnDisk(), {})
    ensures r == Some(-1) ==>
              && Sound(fs) && fs.OnDisk() == old(fs.OnDisk())
              && FoundAt(Tree(fs).dirs[i], Cut(name, DIRSIZ), k) && Tree(fs).dirs[i][k].inum != i
    ensures r == None <==>
              Stops(old(Tree(fs)).dirs[i], Cut(name, DIRSIZ), i, k, old(fs.cache), old(fs.OnDisk()))
    ensures r != None ==>
              && LogsAtMost(old(fs.logged), fs.logged, wrote, 6)
              && fs.Journaled(old(fs.OnDisk()), old(fs.logged), fs.OnDisk(), fs.logged)
  {
    hide Sound, TreeOn, Links.TreeOk, Cut, HasRoom, fs.Journaled, LogsAtMost, Stops, FilesKept;
    ghost var t, was, d, logs := Tree(fs), fs.cache, fs.OnDisk(), fs.logged;
    TypesOn(d, i);
    TypesOn(d, ino);
    EntriesInRange(t, i);
    AddLinks(fs, ip, 1, ino);
    ghost var cache, disk, mid := fs.cache, fs.OnDisk(), fs.logged;
    StopsAsBefore(d, disk, was, cache, t.dirs[i], Cut(name, DIRSIZ), i);
    Raised(t, ino);
    r, k, wrote := LinkRaised(fs, ip, dp, name, ino, i);
    if r == None {
      return;
    }
    fs.JournaledTwice(d, logs, disk, mid, fs.OnDisk(), fs.logged);
    OneMore(logs, fs.IBlock(ino), fs.logged, wrote);
    wrote := {fs.IBlock(ino)} + wrote;
    if r == Some(0) {
      Links.LinkIsRightExactly(t, ino, i, Cut(name, DIRSIZ), k);
      KeptAround(d, disk, ino, disk.inodes[ino]);
      FilesKeptTwice(d, disk, fs.OnDisk(), {});
    } else {
      LoweredAgain(d.inodes, ino);
    }
  }

  lemma StopsAsBefore(d: Disk, e: Disk, was: seq<Incore>, now: seq<Incore>, es: seq<Dirent>, name: seq<Byte>, i: nat)
    requires i < |d.inodes| && i < |e.inodes| && e.bitmap == d.bitmap && e.blocks == d.blocks
    requires e.inodes[i].addrs == d.inodes[i].addrs
    requires |now| == |was| && forall c: nat :: c < |was| ==> now[c].ref == was[c].ref && now[c].inum == was[c].inum
    ensures forall k: nat :: Stops(es, name, i, k, now, e) <==> Stops(es, name, i, k, was, d)
  {
    hide Absent, FreeAt, HasRoom;
    SameRoom(was, now);
    forall k: nat
      ensures Stops(es, name, i, k, now, e) <==> Stops(es, name, i, k, was, d)
    {
      SameSpace(d, e, i, DIRENT * k);
      if FoundAt(es, name, k) {
        assert FileSystem.NoneLeft(now, es[k].inum) <==> FileSystem.NoneLeft(was, es[k].inum);
      }
    }
  }

  lemma LoweredAgain(s: seq<Dinode>, i: nat)
    requires i < |s|
    ensures var u := s[i := s[i].(nlink := s[i].nlink + 1)]; u[i := u[i].(nlink := u[i].nlink - 1)] == s
  {
  }

  /** The count of inode `i` raised, with an entry or not, and lowered again. */
  lemma Raised(t: Links.Tree, i: nat)
    requires i < |t.nlink|
    ensures var u := t.(nlink := t.nlink[i := t.nlink[i] + 1]);
      && u.(nlink := u.nlink[i := u.nlink[i] - 1]) == t
      && forall ds: seq<seq<Dirent>> :: u.(dirs := ds) == t.(nlink := u.nlink, dirs := ds)
  {
    assert t.nlink[i := t.nlink[i] + 1][i := t.nlink[i]] == t.nlink;
  }

  lemma OneMore(logs: set<nat>, b: nat, now: set<nat>, wrote: set<nat>)
    ensures LogsAtMost(logs + {b}, now, wrote, 5) ==> LogsAtMost(logs, now, {b} + wrote, 6)
  {
    assert |{b} + wrote| <= 1 + |wrote|;
  }

  /** The rest of `link`, when the count of inode `ip` was raised. */
  method LinkRaised(fs: FileSystem, ip: nat, dp: nat, name: seq<Byte>, ghost ino: nat, ghost i: nat)
      returns (r: Option<int>, ghost k: nat, ghost wrote: set<nat>)
    requires Sound(fs) && Locks(fs, ip, ino) && Refers(fs, dp, i) && ino != i
    requires fs.dinodes[i].typ == T_DIR && Readable(name, DIRSIZ)
    requires forall e :: e in Tree(fs).dirs[i] ==> e.inum < |fs.dinodes|
    modifies fs
    ensures r == None || r == Some(0) || r == Some(-1)
    ensures r != None ==> Sound(fs) && |fs.dinodes| == |old(fs.dinodes)|
    ensures r == Some(0) ==>
              && var es, nm := old(Tree(fs)).dirs[i], Cut(name, DIRSIZ);
              && Absent(es, nm) && FreeAt(es, k)
              && Tree(fs) == old(Tree(fs)).(dirs := old(Tree(fs)).dirs[i := Put(es, k, Dirent(ino, nm))])
              && FilesKept(old(fs.OnDisk()), fs.OnDisk(), {})
    ensures r == Some(-1) ==>
              && Tree(fs) == old(Tree(fs)).(nlink := old(Tree(fs)).nlink[ino := old(Tree(fs)).nlink[ino] - 1])
              && fs.bitmap == old(fs.bitmap) && fs.blocks == old(fs.blocks)
              && fs.dinodes == old(fs.dinodes)[ino := old(fs.dinodes)[ino].(nlink := old(fs.dinodes)[ino].nlink - 1)]
              && FoundAt(Tree(fs).dirs[i], Cut(name, DIRSIZ), k) && Tree(fs).dirs[i][k].inum != i
    ensures r == None <==> Stops(old(Tree(fs)).dirs[i], Cut(name, DIRSIZ), i, k, old(fs.cache), old(fs.OnDisk()))
    ensures r != None ==>
              && LogsAtMost(old(fs.logged), fs.logged, wrote, 5)
              && fs.Journaled(old(fs.OnDisk()), old(fs.logged), fs.OnDisk(), fs.logged)
  {
    hide Sound, TreeOn, Cut, HasRoom, fs.Journaled, Recorded, LogsAtMost, FilesKept;
    ghost var d, logs, was := fs.OnDisk(), fs.logged, fs.cache;
    var ok := Lock(fs, dp, i);
    SameRoom(was, fs.cache);
    ghost var data, maps, p := {}, {}, fs.Pointer(dp);
    r, k, data, maps := Enter(fs, dp, name, fs.cache[ip].inum, i);
    if r == Some(0) {
      fs.PointerIsOne(dp);
      wrote := data + maps + fs.Pointer(dp) + {fs.IBlock(i)};
      RecordLogs(d, fs.OnDisk(), i, k, logs, fs.logged, data, maps, p, fs.Pointer(dp), fs.IBlock(i));
    } else if r == Some(-1) {
      AddLinks(fs, ip, -1, ino);
      wrote := {fs.IBlock(ino)};
      NothingMore(logs, fs.IBlock(ino));
    } else {
      wrote := {};
    }
  }

  lemma NothingLogged(logs: set<nat>)
    ensures LogsAtMost(logs, logs, {}, 6)
  {
  }

  lemma SameSpace(d: Disk, e: Disk, i: nat, off: nat)
    requires i < |d.inodes| && i < |e.inodes| && e.bitmap == d.bitmap && e.blocks == d.blocks
    requires e.inodes[i].addrs == d.inodes[i].addrs
    ensures HasRoom(e, i, off) <==> HasRoom(d, i, off)
  {
  }

  lemma SameRoom(was: seq<Incore>, now: seq<Incore>)
    requires |now| == |was| && forall c: nat :: c < |was| ==> now[c].ref == was[c].ref && now[c].inum == was[c].inum
    ensures forall i: nat :: FileSystem.NoneLeft(now, i) <==> FileSystem.NoneLeft(was, i)
  {
    forall i: nat
      ensures FileSystem.NoneLeft(now, i) <==> FileSystem.NoneLeft(was, i)
    {
      assert FileSystem.NoneLeft(was, i) ==> forall c: nat :: c < |now| ==> was[c].ref > 0 && was[c].inum != i;
      assert FileSystem.NoneLeft(now, i) ==> forall c: nat :: c < |was| ==> now[c].ref > 0 && now[c].inum != i;
    }
  }

  /** A record of a locked directory cleared: the file does not grow, and `writei` cannot fail. */
  method Clear(fs: FileSystem, dp: nat, k: nat, ghost i: nat) returns (ok: bool, ghost wrote: set<nat>)
    requires Sound(fs) && Locks(fs, dp, i) && fs.dinodes[i].typ == T_DIR && k < |Tree(fs).dirs[i]|
    modifies fs
    ensures ok && Sound(fs) && |fs.dinodes| == |old(fs.dinodes)| && Locks(fs, dp, i) && |fs.cache| == |old(fs.cache)|
    ensures fs.cache == old(fs.cache)[dp := fs.cache[dp]] && fs.cache[dp].din.nlink == old(fs.cache)[dp].din.nlink
    ensures fs.dinodes[i].typ == T_DIR
    ensures Tree(fs) == old(Tree(fs)).(dirs := old(Tree(fs)).dirs[i := old(Tree(fs)).dirs[i][k := Links.NO_ENTRY]])
    ensures LogsAtMost(old(fs.logged), fs.logged, wrote, 5) && fs.IBlock(i) in wrote
    ensures fs.Journaled(old(fs.OnDisk()), old(fs.logged), fs.OnDisk(), fs.logged)
    ensures FilesKept(old(fs.OnDisk()), fs.OnDisk(), {})
  {
    hide Owned, NoHoles, Entries, Contents, Wrote, KeepsRefs, DirsWhole, fs.Journaled, LogsAtMost, FilesKept;
    LockedIs(fs, dp, i);
    ghost var d, logs, p := fs.OnDisk(), fs.logged, fs.Pointer(dp);
    SizeIsWhole(fs.View(dp), i, k);
    var de: seq<Byte> := seq(DIRENT, _ => 0);
    var n, data, maps := WriteEntry(fs, dp, k, de);
    ok := n == Some(DIRENT);
    fs.PointerIsOne(dp);
    RecordLogs(d, fs.OnDisk(), i, k, logs, fs.logged, data, maps, p, fs.Pointer(dp), fs.IBlock(i));
    wrote := data + maps + fs.Pointer(dp) + {fs.IBlock(i)};
    WroteShape(d, fs.OnDisk(), i, DIRENT * k, de);
    KeptAroundWrite(d, fs.OnDisk(), i, DIRENT * k, de);
    assert fs.View(dp) == fs.OnDisk();
    assert DirWhole(fs.OnDisk(), i);
    WholeFits(fs.OnDisk(), i);
    assert DirWhole(d, i) by { LockedWasWhole(d, i); }
    assert Decode(de) == Links.NO_ENTRY;
    EntrySet(d, fs.OnDisk(), i, k, de, Links.NO_ENTRY);
  }

  /** `unlink` in directory `dp`: no panic but for want of a cache entry. */
  method Unlink(fs: FileSystem, dp: nat, name: seq<Byte>, ghost i: nat)
      returns (r: Option<int>, ghost k: nat, ghost wrote: set<nat>)
    requires Sound(fs) && Links.TreeOk(Tree(fs)) && Refers(fs, dp, i) && fs.dinodes[i].typ == T_DIR &&
              Readable(name, DIRSIZ)
    modifies fs
    ensures r == None || r == Some(0) || r == Some(-1)
    ensures r == Some(0) ==>
              && Sound(fs) && FoundAt(old(Tree(fs)).dirs[i], Cut(name, DIRSIZ), k) &&
                   Links.CanUnlink(old(Tree(fs)), i, k)
              && Tree(fs) == Links.Unlinked(old(Tree(fs)), i, k) && Links.TreeOk(Tree(fs))
              && FilesKept(old(fs.OnDisk()), fs.OnDisk(), {})
    ensures r == Some(-1) ==>
              && Sound(fs) && fs.OnDisk() == old(fs.OnDisk())
              && var nm := Cut(name, DIRSIZ);
              nm == Links.DOT || nm == Links.DOTDOT || Absent(Tree(fs).dirs[i], nm) ||
                  Links.NotEmpty(Tree(fs), i, nm, k)
    ensures r == None <==>
              && Cut(name, DIRSIZ) != Links.DOT && Cut(name, DIRSIZ) != Links.DOTDOT
              && FoundAt(old(Tree(fs)).dirs[i], Cut(name, DIRSIZ), k)
              && FileSystem.NoneLeft(old(fs.cache), old(Tree(fs)).dirs[i][k].inum)
    ensures r != None ==>
              && LogsAtMost(old(fs.logged), fs.logged, wrote, 6)
              && fs.Journaled(old(fs.OnDisk()), old(fs.logged), fs.OnDisk(), fs.logged)
  {
    fs.JournaledItself();
    NothingLogged(fs.logged);
    hide Sound, TreeOn, Links.TreeOk, Cut, fs.Journaled, LogsAtMost, FilesKept;
    ghost var t, was := Tree(fs), fs.cache;
    TypesOn(fs.OnDisk(), i);
    EntriesInRange(t, i);
    var ok := Lock(fs, dp, i);
    Links.CutDots();
    var dot := Strncmp(name, Links.DOT + [0], DIRSIZ);
    var dotdot := Strncmp(name, Links.DOTDOT + [0], DIRSIZ);
    if dot == 0 || dotdot == 0 {
      return Some(-1), 0, {};
    }
    ghost var cache := fs.cache;
    SameRoom(was, cache);
    var found := Find(fs, dp, name, i);
    if found == Stopped {
      k :| FoundAt(t.dirs[i], Cut(name, DIRSIZ), k) && FileSystem.NoneLeft(cache, t.dirs[i][k].inum);
      return None, k, {};
    }
    if found == Missing {
      return Some(-1), 0, {};
    }
    k := found.k;
    var n;
    n, wrote := UnlinkFound(fs, dp, found.ip, found.k, Cut(name, DIRSIZ), i);
    r := Some(n);
  }

  /** The rest of `unlink`, when the name is there and its inode `ip` in the cache. */
  method UnlinkFound(fs: FileSystem, dp: nat, ip: nat, k: nat, name: seq<Byte>, ghost i: nat)
      returns (r: int, ghost wrote: set<nat>)
    requires Sound(fs) && Links.TreeOk(Tree(fs)) && Locks(fs, dp, i) && fs.dinodes[i].typ == T_DIR
    requires FoundAt(Tree(fs).dirs[i], name, k) && name != Links.DOT && name != Links.DOTDOT
    requires Refers(fs, ip, Tree(fs).dirs[i][k].inum)
    modifies fs
    ensures r == 0 || r == -1
    ensures r == 0 ==>
              && Sound(fs) && Links.CanUnlink(old(Tree(fs)), i, k)
              && Tree(fs) == Links.Unlinked(old(Tree(fs)), i, k) && Links.TreeOk(Tree(fs))
              && FilesKept(old(fs.OnDisk()), fs.OnDisk(), {})
    ensures r == -1 ==> Sound(fs) && fs.OnDisk() == old(fs.OnDisk()) && Links.NotEmpty(Tree(fs), i, name, k)
    ensures LogsAtMost(old(fs.logged), fs.logged, wrote, 6)
    ensures fs.Journaled(old(fs.OnDisk()), old(fs.logged), fs.OnDisk(), fs.logged)
  {
    fs.JournaledItself();
    NothingLogged(fs.logged);
    hide Sound, TreeOn, fs.Journaled, LogsAtMost, FilesKept;
    hide Links.TreeOk, Links.CanUnlink, Links.NotEmpty, Links.Unlinked;
    ghost var t := Tree(fs);
    ghost var ino := t.dirs[i][k].inum;
    TypesOn(fs.OnDisk(), i);
    Links.FoundCanGo(t, i, name, k);
    TypesOn(fs.OnDisk(), ino);
    var ok := Lock(fs, ip, ino);
    LockedIs(fs, ip, ino);
    assert ok && fs.cache[ip].din.nlink >= 1;
    if fs.cache[ip].din.typ == T_DIR {
      var empty := Isdirempty(fs, ip);
      if !empty {
        return -1, {};
      }
    }
    wrote := Remove(fs, dp, ip, k, ino, i);
    Links.UnlinkKeepsTree(t, i, k);
    r := 0;
  }

  /** The entry cleared and the counts of both inodes lowered. */
  method Remove(fs: FileSystem, dp: nat, ip: nat, k: nat, ghost ino: nat, ghost i: nat) returns (ghost wrote: set<nat>)
    requires Sound(fs) && Locks(fs, dp, i) && Locks(fs, ip, ino) && fs.dinodes[i].typ == T_DIR
    requires Links.CanUnlink(Tree(fs), i, k) && ino == Tree(fs).dirs[i][k].inum
    modifies fs
    ensures Sound(fs) && Tree(fs) == Links.Unlinked(old(Tree(fs)), i, k)
    ensures FilesKept(old(fs.OnDisk()), fs.OnDisk(), {})
    ensures LogsAtMost(old(fs.logged), fs.logged, wrote, 6)
    ensures fs.Journaled(old(fs.OnDisk()), old(fs.logged), fs.OnDisk(), fs.logged)
  {
    hide Sound, TreeOn, fs.Journaled, FilesKept;
    ghost var t, d, logs := Tree(fs), fs.OnDisk(), fs.logged;
    Links.UnlinkedDirIsAlone(t, i, k);
    hide Links.TreeOk;
    var ok;
    ok, wrote := Clear(fs, dp, k, i);
    TypesOn(fs.OnDisk(), ino);
    LockedIs(fs, ip, ino);
    if fs.cache[ip].din.typ == T_DIR {
      ghost var e, mid := fs.OnDisk(), fs.logged;
      AddLinks(fs, dp, -1, i);
      fs.JournaledTwice(d, logs, e, mid, fs.OnDisk(), fs.logged);
      KeptAround(e, fs.OnDisk(), i, fs.dinodes[i]);
      FilesKeptTwice(d, e, fs.OnDisk(), {});
    }
    ghost var e, mid := fs.OnDisk(), fs.logged;
    AddLinks(fs, ip, -1, ino);
    fs.JournaledTwice(d, logs, e, mid, fs.OnDisk(), fs.logged);
    KeptAround(e, fs.OnDisk(), ino, fs.dinodes[ino]);
    FilesKeptTwice(d, e, fs.OnDisk(), {});
    wrote := wrote + {fs.IBlock(ino)};
    assert Tree(fs).nlink == Links.Unlinked(t, i, k).nlink;
  }

  /** `iput`. The inode is freed exactly when it is valid, without links and not referred to otherwise; no entry of a
      linked directory names it then. */
  method Iput(fs: FileSystem, ip: nat, ghost i: nat) returns (freed: bool)
    requires Sound(fs) && Links.TreeOk(Tree(fs)) && Refers(fs, ip, i) && 0 < i
    modifies fs
    ensures Sound(fs) && Links.TreeOk(Tree(fs))
    ensures freed <==> old(fs.cache)[ip].valid && old(Tree(fs)).nlink[i] == 0 && old(fs.cache)[ip].ref == 1
    ensures freed ==> Tree(fs) == Links.Freed(old(Tree(fs)), i) && Links.Named(old(Tree(fs)), i) == {}
    ensures freed ==> IsFreed(old(fs.OnDisk()), old(fs.owner), i, fs.OnDisk())
    ensures !freed ==> fs.OnDisk() == old(fs.OnDisk()) && fs.logged == old(fs.logged)
    ensures fs.logged <= old(fs.logged) + fs.MapBlocks(|fs.bitmap|) + {fs.IBlock(i)}
    ensures fs.Journaled(old(fs.OnDisk()), old(fs.logged), fs.OnDisk(), fs.logged)
  {
    hide Owned, DirsWhole, TreeOn, Links.TreeOk, fs.Journaled;
    ghost var d := fs.OnDisk();
    assert FileSystem.EntryOk(fs.cache[ip], fs.dinodes);
    TypesOn(d, i);
    freed := fs.Iput(ip);
    if freed {
      FreedIs(d, old(fs.owner), i, fs.OnDisk());
      InodeEmptied(d, fs.OnDisk(), i);
      Links.FreeKeepsTree(TreeOn(d), i);
      assert Tree(fs).nlink == TreeOn(d).nlink;
    }
  }

  lemma LogsMore(was: set<nat>, mid: set<nat>, now: set<nat>, wrote: set<nat>, maps: set<nat>, b: nat)
    requires LogsAtMost(was, mid, wrote, 6) && now <= mid + maps + {b} && |maps| <= 3
    ensures LogsAtMost(was, now, wrote + maps + {b}, Crash.MAXOPBLOCKS)
  {
    AtMost(wrote, maps);
    AtMost(wrote + maps, {b});
  }

  /** A call that logs six blocks and then gives up an inode keeps to the budget when the bitmap has three blocks at
      most; that of `mkfs` has one. */
  lemma PutFits(fs: FileSystem, was: set<nat>, mid: set<nat>, now: set<nat>, wrote: set<nat>, n: nat, b: nat)
    requires LogsAtMost(was, mid, wrote, 6) && now <= mid + fs.MapBlocks(n) + {b} && n <= 3 * BPB
    ensures LogsAtMost(was, now, wrote + fs.MapBlocks(n) + {b}, Crash.MAXOPBLOCKS)
  {
    fs.MapBlocksAre(n);
    assert (n + BPB - 1) / BPB <= 3;
    LogsMore(was, mid, now, wrote, fs.MapBlocks(n), b);
  }

  /** The root directory of an image is whole, and there is no other. */
  lemma ImageWhole(d: Disk, names: seq<seq<Byte>>, files: seq<seq<Byte>>)
    requires |names| == |files| && |names| + 2 <= |d.inodes| == Mkfs.NINODES
    requires forall i: nat :: i == 0 || |names| + 2 <= i < Mkfs.NINODES ==> d.inodes[i] == Mkfs.NO_INODE
    requires forall k: nat :: k < |names| ==> Mkfs.Image.HasFile(d, 2 + k, files[k])
    requires NoHoles(d, 1) && d.inodes[1].size == |Mkfs.RootBytes(names)| + Mkfs.Padding(|names|)
    ensures DirsWhole(d)
  {
    Mkfs.PaddingFills(|names|);
    hide Mkfs.RootBytes, Mkfs.Padding, Contents, NoHoles;
    forall i: nat
      ensures DirWhole(d, i)
    {
      if 2 <= i < |names| + 2 {
        assert Mkfs.Image.HasFile(d, 2 + (i - 2), files[i - 2]);
      }
    }
  }

  /** The image of `mkfs` starts it all: mounted, its disk is in order and its tree too. There is one exactly if the
  files fit in. */
  method MountImage(names: seq<seq<Byte>>, files: seq<seq<Byte>>, n: nat) returns (r: Option<FileSystem>)
    requires |names| == |files| && Mkfs.GoodNames(names) && forall k: nat :: k < |names| ==> Readable(names[k], DIRSIZ)
    requires |names| % 32 != 30
    ensures r.Some? <==> Mkfs.Image.Fits(files, Mkfs.NMETA)
    ensures r.Some? ==> Sound(r.value) && Links.TreeOk(Tree(r.value))
  {
    hide Mkfs.Image.Fits, Mkfs.GoodNames, Links.TreeOk, TreeOn, Owned;
    var im := new Mkfs.Image();
    var ok := im.Build(names, files);
    if !ok {
      return None;
    }
    ImageWhole(im.Planned(), names, files);
    hide *;
    var fs := new FileSystem.Mount(Disk(Mkfs.NMETA, im.bitmap, im.blocks, im.inodes), 2 + Crash.LOGSIZE,
                                   Mkfs.NMETA - 1, n, im.owner);
    return Some(fs);
  }
}
