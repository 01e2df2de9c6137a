/** `dirlookup`, `dirlink` and `isdirempty`: a directory file as a list of entries.

The directory is hole-free, so that reading it allocates nothing, and holds whole records.
 */
module DirFile {
  import opened Blocks
  import opened Ownership
  import opened Files
  import opened Dirents
  import opened Fs

  /** Cached inode `dp` is a locked directory, up to date on the disk. */
  ghost predicate IsDir(fs: FileSystem, dp: nat)
    reads fs
  {
    && fs.Idle() && fs.Held(dp) && fs.Synced(dp) && fs.cache[dp].ref > 0 && fs.cache[dp].din.typ == T_DIR
    && NoHoles(fs.View(dp), fs.cache[dp].inum) && fs.cache[dp].din.size % DIRENT == 0
  }

  ghost function List(fs: FileSystem, dp: nat): seq<Dirent>
    requires IsDir(fs, dp)
    reads fs
  {
    Entries(Contents(fs.View(dp), fs.cache[dp].inum))
  }

  lemma SpelledEntry(d: Disk, i: nat, k: nat, b: seq<Byte>)
    requires i < |d.inodes| && d.inodes[i].size <= LIMIT && DIRENT * k + DIRENT <= d.inodes[i].size
    requires |b| == DIRENT && Spells(d, i, DIRENT * k, b)
    ensures b == Contents(d, i)[DIRENT * k..DIRENT * k + DIRENT]
    ensures k < |Entries(Contents(d, i))| && Decode(b) == Entries(Contents(d, i))[k]
  {
    hide FileByte, Decode;
    var c := Contents(d, i);
    var off := DIRENT * k;
    forall q: nat | q < DIRENT
      ensures b[q] == c[off + q]
    {
      assert Spelled(d, i, off, b, q);
    }
    assert b == c[off..off + DIRENT];
    assert k < |Entries(c)| && EntryAt(c, k) == Entries(c)[k];
  }

  /** `readi` of one record; it never comes up short, so the panics on that are out of reach. */
  method ReadEntry(fs: FileSystem, dp: nat, k: nat) returns (ok: bool, b: seq<Byte>)
    requires IsDir(fs, dp) && k < |List(fs, dp)|
    modifies fs
    ensures unchanged(fs)
    ensures ok && |b| == DIRENT && Decode(b) == List(fs, dp)[k]
  {
    hide Owned, NoHoles, Spells, Decode, Entries, Extends;
    ghost var d, i := fs.View(dp), fs.cache[dp].inum;
    SizeIsWhole(d, i, k);
    var n;
    n, b := fs.Readi(dp, DIRENT * k, DIRENT);
    ok := n == Some(DIRENT);
    SpelledEntry(d, i, k, b);
  }

  lemma SizeIsWhole(d: Disk, i: nat, k: nat)
    requires i < |d.inodes| && NoHoles(d, i) && k < |Entries(Contents(d, i))|
    ensures DIRENT * k + DIRENT <= d.inodes[i].size <= LIMIT
  {
    hide HasBlock, FileByte;
    assert k < d.inodes[i].size / DIRENT;
  }

  /** What a lookup finds: nothing, or an entry at a record with its inode in the cache; `Stopped` is a panic. */
  datatype Found = Missing | Entry(ip: nat, k: nat) | Stopped

  /** Entry `ip` of the cache was given one more reference, and was not in use for anything else. */
  ghost predicate OneMore(was: seq<Incore>, now: seq<Incore>, ip: nat) {
    && |now| == |was| && ip < |now| && now == was[ip := now[ip]] && now[ip].ref == was[ip].ref + 1
    && (was[ip].ref > 0 ==> now[ip] == was[ip].(ref := was[ip].ref + 1))
  }

  /** `dirlookup` finds the first live entry with the name, and there is none exactly when it finds nothing. */
  method Dirlookup(fs: FileSystem, dp: nat, name: seq<Byte>) returns (r: Found)
    requires IsDir(fs, dp) && Readable(name, DIRSIZ)
    requires forall e :: e in List(fs, dp) ==> e.inum < |fs.dinodes|
    modifies fs
    ensures fs.OnDisk() == old(fs.OnDisk()) && fs.owner == old(fs.owner) && fs.logged == old(fs.logged) && IsDir(fs, dp)
    ensures List(fs, dp) == old(List(fs, dp)) && fs.cache[dp].inum == old(fs.cache)[dp].inum
    ensures r == Stopped ==>
              exists k: nat :: FoundAt(List(fs, dp), Cut(name, DIRSIZ), k) &&
                  FileSystem.NoneLeft(old(fs.cache), List(fs, dp)[k].inum)
    ensures r == Missing ==> unchanged(fs) && Absent(List(fs, dp), Cut(name, DIRSIZ))
    ensures r.Entry? ==>
              && FoundAt(List(fs, dp), Cut(name, DIRSIZ), r.k) && r.ip < |fs.cache|
              && fs.IsCached(r.ip, List(fs, dp)[r.k].inum) &&
                   !FileSystem.NoneLeft(old(fs.cache), List(fs, dp)[r.k].inum)
              && (List(fs, dp)[r.k].inum == fs.cache[dp].inum ==> r.ip == dp)
              && (fs.cache[r.ip].ref == 1 ==> !fs.cache[r.ip].valid) && OneMore(old(fs.cache), fs.cache, r.ip)
  {
    hide Owned, NoHoles, Contents, Entries, Decode;
    ghost var es := List(fs, dp);
    ghost var nm := Cut(name, DIRSIZ);
    WholeRecords(fs.View(dp), fs.cache[dp].inum);
    var k := 0;
    while DIRENT * k < fs.cache[dp].din.size
      invariant unchanged(fs) && k <= |es|
      invariant forall j: nat :: j < k ==> !Names(es[j], nm)
    {
      var ok, b := ReadEntry(fs, dp, k);
      assert ok;
      var de := Decode(b);
      if de.inum != 0 {
        NameOfRecord(b);
        var cmp := Strncmp(name, b[2..], DIRSIZ);
        if cmp == 0 {
          assert es[k] in es;
          assert FoundAt(es, nm, k);
          r := GetEntry(fs, dp, de.inum, k);
          return;
        }
      }
      k := k + 1;
    }
    return Missing;
  }

  lemma NameOfRecord(b: seq<Byte>)
    requires |b| == DIRENT
    ensures Readable(b[2..], DIRSIZ) && Decode(b).name == Cut(b[2..], DIRSIZ)
  {
  }

  lemma WholeRecords(d: Disk, i: nat)
    requires i < |d.inodes| && NoHoles(d, i) && d.inodes[i].size % DIRENT == 0
    ensures DIRENT * |Entries(Contents(d, i))| == d.inodes[i].size
  {
    hide HasBlock, FileByte;
  }

  /** `iget` of the inode an entry names leaves the directory as it is. */
  method GetEntry(fs: FileSystem, dp: nat, inum: nat, k: nat) returns (r: Found)
    requires IsDir(fs, dp) && inum < |fs.dinodes|
    modifies fs`cache
    ensures IsDir(fs, dp) && List(fs, dp) == old(List(fs, dp))
    ensures r == Stopped <==> FileSystem.NoneLeft(old(fs.cache), inum)
    ensures r == Stopped || (r.Entry? && r.k == k && r.ip < |fs.cache| && fs.IsCached(r.ip, inum))
    ensures r.Entry? && old(fs.cache)[dp].inum == inum ==> r.ip == dp
    ensures r.Entry? ==> (fs.cache[r.ip].ref == 1 ==> !fs.cache[r.ip].valid) && OneMore(old(fs.cache), fs.cache, r.ip)
    ensures fs.cache[dp].din == old(fs.cache)[dp].din && fs.cache[dp].inum == old(fs.cache)[dp].inum
  {
    hide Owned, NoHoles, Contents, Entries;
    var ip := fs.Iget(inum);
    assert fs.View(dp) == old(fs.View(dp));
    return if ip == None then Stopped else Entry(ip.value, k);
  }

  /** `isdirempty`: no live entry after the first two records. */
  method Isdirempty(fs: FileSystem, dp: nat) returns (r: bool)
    requires IsDir(fs, dp)
    modifies fs
    ensures unchanged(fs)
    ensures r <==> forall j: nat :: 2 <= j < |List(fs, dp)| ==> List(fs, dp)[j].inum == 0
  {
    hide Owned, NoHoles, Contents, Entries, Decode;
    ghost var es := List(fs, dp);
    WholeRecords(fs.View(dp), fs.cache[dp].inum);
    var k := 2;
    while DIRENT * k < fs.cache[dp].din.size
      invariant unchanged(fs) && 2 <= k && (k <= |es| || k == 2)
      invariant forall j: nat :: 2 <= j < k && j < |es| ==> es[j].inum == 0
    {
      var ok, b := ReadEntry(fs, dp, k);
      assert ok;
      if Decode(b).inum != 0 {
        return false;
      }
      k := k + 1;
    }
    return true;
  }

  /** From `d` to `e` record `k` of directory `i` was written: `data` is its block, `maps` the bitmap blocks logged,
      `p0` and `p` hold the indirect block before and after, and `ib` is the block of the inode. */
  ghost predicate Recorded(d: Disk, e: Disk, i: nat, k: nat, was: set<nat>, now: set<nat>, data: set<nat>,
                           maps: set<nat>, p0: set<nat>, p: set<nat>, ib: nat) {
    && KeepsRefs(d, e) && OthersRefs(d, e, i) && FileSystem.OneTurn(d, e, i, DIRENT * k, data)
    && now <= was + data + maps + p + {ib} && p0 <= p
    && |maps| + |p0| + FileSystem.Saved(d, i, DIRENT * k) <= 1 + |p|
  }

  /** `writei` of one record at a record boundary, at most one past the end. */
  method WriteEntry(fs: FileSystem, dp: nat, k: nat, b: seq<Byte>)
      returns (r: Option<int>, ghost data: set<nat>, ghost maps: set<nat>)
    requires IsDir(fs, dp) && k <= |List(fs, dp)| && |b| == DIRENT
    modifies fs
    ensures r == Some(-1) <==> DIRENT * k + DIRENT > LIMIT
    ensures r == Some(-1) ==> unchanged(fs)
    ensures DIRENT * k + DIRENT <= LIMIT ==>
              (r == None <==> !HasRoom(old(fs.OnDisk()), old(fs.cache)[dp].inum, DIRENT * k))
    ensures r == None ==> k == |old(List(fs, dp))|
    ensures r != None && r != Some(-1) ==>
              && r == Some(DIRENT) && IsDir(fs, dp) && List(fs, dp) == Put(old(List(fs, dp)), k, Decode(b))
              && |fs.cache| == |old(fs.cache)| && fs.cache == old(fs.cache)[dp := fs.cache[dp]]
              && fs.cache[dp] == old(fs.cache[dp]).(din := old(fs.cache[dp].din).(size := fs.cache[dp].din.size,
                                                                                  addrs := fs.cache[dp].din.addrs))
              && Wrote(old(fs.OnDisk()), fs.OnDisk(), fs.cache[dp].inum, DIRENT * k, b)
              && Recorded(old(fs.OnDisk()), fs.OnDisk(), fs.cache[dp].inum, k, old(fs.logged), fs.logged, data, maps,
                          old(fs.Pointer(dp)), fs.Pointer(dp), fs.IBlock(fs.cache[dp].inum))
    ensures fs.Journaled(old(fs.OnDisk()), old(fs.logged), fs.OnDisk(), fs.logged)
  {
    RecordInBlock(k);
    fs.JournaledItself();
    hide Owned, NoHoles, Decode, Wrote, Entries, Contents, KeepsRefs, OthersRefs, HasRoom, InOneBlock, fs.Journaled,
        FileSystem.OneTurn, FileSystem.Saved, WriteCost, Recorded, FileSystem.Written;
    ghost var d, i := fs.View(dp), fs.cache[dp].inum;
    WholeRecords(d, i);
    SizeInLimit(d, i);
    assert d == fs.OnDisk();
    r, data, maps := fs.Writei(dp, b, DIRENT * k);
    if r != None && r != Some(-1) {
      EntryIsWritten(fs, dp, k, b, data, maps, d, old(fs.cache), old(fs.logged), old(fs.Pointer(dp)));
    }
  }

  /** What the write of record `k` leaves, where `d` was the disk before. */
  lemma EntryIsWritten(fs: FileSystem, dp: nat, k: nat, b: seq<Byte>, data: set<nat>, maps: set<nat>, d: Disk,
                       was: seq<Incore>, logs: set<nat>, p0: set<nat>)
    requires dp < |was| && was[dp].inum < |d.inodes| && |b| == DIRENT && InOneBlock(DIRENT * k, DIRENT)
    requires fs.Written(dp, b, DIRENT * k, data, maps, d, was, d.inodes, logs, p0)
    requires FileSystem.CacheOk(was, d.inodes) && was[dp].ref > 0 && was[dp].din == d.inodes[was[dp].inum]
    requires was[dp].din.typ == T_DIR && was[dp].din.size % DIRENT == 0 && NoHoles(d, was[dp].inum)
    requires DIRENT * k <= was[dp].din.size <= LIMIT && DIRENT * k + DIRENT <= LIMIT
    ensures IsDir(fs, dp) && k <= |Entries(Contents(d, was[dp].inum))|
    ensures List(fs, dp) == Put(Entries(Contents(d, was[dp].inum)), k, Decode(b))
    ensures |fs.cache| == |was| && fs.cache == was[dp := fs.cache[dp]]
    ensures fs.cache[dp] == was[dp].(din := was[dp].din.(size := fs.cache[dp].din.size, addrs :=
                              fs.cache[dp].din.addrs))
    ensures Wrote(d, fs.OnDisk(), was[dp].inum, DIRENT * k, b)
    ensures Recorded(d, fs.OnDisk(), was[dp].inum, k, logs, fs.logged, data, maps, p0, fs.Pointer(dp),
                     fs.IBlock(was[dp].inum))
  {
    hide Owned, NoHoles, Decode, Wrote, Entries, Contents, KeepsRefs, OthersRefs, InOneBlock, FileSystem.OneTurn,
        FileSystem.Saved, BacksBytes, WriteCost, Recorded;
    var i := was[dp].inum;
    assert fs.View(dp) == fs.OnDisk();
    SpliceIsPut(d, fs.View(dp), i, k, b);
    RecordedIs(d, fs.OnDisk(), i, k, logs, fs.logged, data, maps, p0, fs.Pointer(dp), fs.IBlock(i));
  }

  lemma SpliceIsPut(d: Disk, e: Disk, i: nat, k: nat, b: seq<Byte>)
    requires Wrote(d, e, i, DIRENT * k, b) && |b| == DIRENT && i < |d.inodes| == |e.inodes|
    requires DIRENT * k <= d.inodes[i].size <= LIMIT && d.inodes[i].size % DIRENT == 0 && DIRENT * k + DIRENT <= LIMIT
    requires e.inodes[i].size ==
             if DIRENT * k + DIRENT > d.inodes[i].size then DIRENT * k + DIRENT else d.inodes[i].size
    ensures k <= |Entries(Contents(d, i))|
    ensures Entries(Contents(e, i)) == Put(Entries(Contents(d, i)), k, Decode(b))
  {
    hide Decode, Wrote, Entries, Contents;
    WroteIsSplice(d, e, i, DIRENT * k, b);
    ContentsLength(d, i);
    EntriesAfterWrite(Contents(d, i), k, b);
  }

  lemma RecordedIs(d: Disk, e: Disk, i: nat, k: nat, was: set<nat>, now: set<nat>, data: set<nat>, maps: set<nat>,
                   p0: set<nat>, p: set<nat>, ib: nat)
    requires KeepsRefs(d, e) && OthersRefs(d, e, i) && FileSystem.OneTurn(d, e, i, DIRENT * k, data)
    requires now <= was + (data + maps + p + {ib}) && p0 <= p
    requires |maps| + |p0| + FileSystem.Saved(d, i, DIRENT * k) <= 1 + |p|
    ensures Recorded(d, e, i, k, was, now, data, maps, p0, p, ib)
  {
    hide KeepsRefs, OthersRefs, FileSystem.Saved;
  }

  /** Records do not cross blocks. */
  lemma RecordInBlock(k: nat)
    ensures InOneBlock(DIRENT * k, DIRENT)
  {
  }

  /** What stops `dirlink` at record `k`: the name is there, of the directory `i` itself or of an inode for which the
      cache has no room; or the directory, whose records are all taken, cannot grow. */
  ghost predicate Stops(es: seq<Dirent>, name: seq<Byte>, i: nat, k: nat, cache: seq<Incore>, d: Disk)
    requires i < |d.inodes|
  {
    || (FoundAt(es, name, k) && (es[k].inum == i || FileSystem.NoneLeft(cache, es[k].inum)))
    || (Absent(es, name) && FreeAt(es, k) && k == |es| && (DIRENT * k + DIRENT > LIMIT || !HasRoom(d, i, DIRENT * k)))
  }

  /** The part of `dirlink` that enters the name at the first free record; `None` is a panic. */
  method EnterFree(fs: FileSystem, dp: nat, name: seq<Byte>, inum: nat)
      returns (r: Option<int>, ghost k: nat, ghost data: set<nat>, ghost maps: set<nat>)
    requires IsDir(fs, dp) && Readable(name, DIRSIZ) && inum < INUM_RANGE
    modifies fs
    ensures r == None || r == Some(0)
    ensures FreeAt(old(List(fs, dp)), k)
    ensures r == None <==>
              && k == |old(List(fs, dp))|
              && (DIRENT * k + DIRENT > LIMIT || !HasRoom(old(fs.OnDisk()), old(fs.cache)[dp].inum, DIRENT * k))
    ensures r == Some(0) ==>
              && IsDir(fs, dp) && List(fs, dp) == Put(old(List(fs, dp)), k, Dirent(inum, Cut(name, DIRSIZ)))
              && |fs.cache| == |old(fs.cache)| && fs.cache == old(fs.cache)[dp := fs.cache[dp]]
              && fs.cache[dp] == old(fs.cache[dp]).(din := old(fs.cache[dp].din).(size := fs.cache[dp].din.size,
                                                                                  addrs := fs.cache[dp].din.addrs))
              && Recorded(old(fs.OnDisk()), fs.OnDisk(), fs.cache[dp].inum, k, old(fs.logged), fs.logged, data, maps,
                          old(fs.Pointer(dp)), fs.Pointer(dp), fs.IBlock(fs.cache[dp].inum))
              && (exists b :: |b| == DIRENT && Wrote(old(fs.OnDisk()), fs.OnDisk(), fs.cache[dp].inum, DIRENT * k, b))
    ensures fs.Journaled(old(fs.OnDisk()), old(fs.logged), fs.OnDisk(), fs.logged)
  {
    hide Owned, NoHoles, Contents, Entries, Decode, Wrote, Recorded, HasRoom, fs.Journaled;
    ghost var es := List(fs, dp);
    WholeRecords(fs.View(dp), fs.cache[dp].inum);
    var j := 0;
    while DIRENT * j < fs.cache[dp].din.size
      invariant unchanged(fs) && j <= |es| && forall x: nat :: x < j ==> es[x].inum != 0
    {
      var ok, b := ReadEntry(fs, dp, j);
      assert ok;
      if Decode(b).inum == 0 {
        break;
      }
      j := j + 1;
    }
    k := j;
    if k < |es| {
      SizeIsWhole(fs.View(dp), fs.cache[dp].inum, k);
    }
    var raw := Strncpy(name, DIRSIZ);
    DirentRoundTrip(inum, raw);
    var n;
    n, data, maps := WriteEntry(fs, dp, j, Encode(inum, raw));
    r := if n == Some(DIRENT) then Some(0) else None;
  }
  /** `dirlink` enters a name that is not there at the first free record. `None` is a panic, or the wait for its own
    lock when the name it finds is the directory's own: `iput` then asks for the sleep lock the caller holds. `k` is
    the record that has the name, or the one it was to go to. */
  method Dirlink(fs: FileSystem, dp: nat, name: seq<Byte>, inum: nat)
      returns (r: Option<int>, ghost k: nat, ghost data: set<nat>, ghost maps: set<nat>)
    requires IsDir(fs, dp) && Readable(name, DIRSIZ) && inum < INUM_RANGE
    requires forall e :: e in List(fs, dp) ==> e.inum < |fs.dinodes|
    modifies fs
    ensures r == Some(-1) ==>
              && FoundAt(old(List(fs, dp)), Cut(name, DIRSIZ), k) && fs.Idle() && fs.OnDisk() == old(fs.OnDisk())
              && IsDir(fs, dp) && |fs.cache| == |old(fs.cache)|
              && (forall c: nat :: c < |fs.cache| && old(fs.cache)[c].ref > 0 ==> fs.cache[c] == old(fs.cache)[c])
              && old(List(fs, dp))[k].inum != old(fs.cache)[dp].inum &&
                   !FileSystem.NoneLeft(old(fs.cache), old(List(fs, dp))[k].inum)
    ensures r == None <==>
              Stops(old(List(fs, dp)), Cut(name, DIRSIZ), old(fs.cache)[dp].inum, k, old(fs.cache), old(fs.OnDisk()))
    ensures r == None || r == Some(-1) || r == Some(0)
    ensures r == Some(0) ==>
              && Absent(old(List(fs, dp)), Cut(name, DIRSIZ)) && FreeAt(old(List(fs, dp)), k) && IsDir(fs, dp)
              && List(fs, dp) == Put(old(List(fs, dp)), k, Dirent(inum, Cut(name, DIRSIZ)))
              && |fs.cache| == |old(fs.cache)| && fs.cache == old(fs.cache)[dp := fs.cache[dp]]
              && fs.cache[dp] == old(fs.cache[dp]).(din := old(fs.cache[dp].din).(size := fs.cache[dp].din.size,
                                                                                  addrs := fs.cache[dp].din.addrs))
              && Recorded(old(fs.OnDisk()), fs.OnDisk(), fs.cache[dp].inum, k, old(fs.logged), fs.logged, data, maps,
                          old(fs.Pointer(dp)), fs.Pointer(dp), fs.IBlock(fs.cache[dp].inum))
              && (exists b :: |b| == DIRENT && Wrote(old(fs.OnDisk()), fs.OnDisk(), fs.cache[dp].inum, DIRENT * k, b))
    ensures fs.Journaled(old(fs.OnDisk()), old(fs.logged), fs.OnDisk(), fs.logged)
    ensures r == Some(-1) ==> fs.logged == old(fs.logged)
  {
    fs.JournaledItself();
    hide Owned, NoHoles, Contents, Entries, Decode, Wrote, Recorded, HasRoom, fs.Journaled;
    var found := Dirlookup(fs, dp, name);
    if found == Stopped {
      k :| FoundAt(List(fs, dp), Cut(name, DIRSIZ), k) && FileSystem.NoneLeft(old(fs.cache), List(fs, dp)[k].inum);
      return None, k, {}, {};
    }
    if found.Entry? {
      if found.ip == dp {
        return None, found.k, {}, {};
      }
      var freed := fs.Iput(found.ip);
      return Some(-1), found.k, {}, {};
    }
    r, k, data, maps := EnterFree(fs, dp, name, inum);
  }
}
