/** Calls of the file system, the log and crashes together: whatever block write a crash comes after, the disk that the
next recovery leaves is the image of the file system from before or from after a transaction, and so well owned and with
a tree in order.

The disk of `CrashAtomicity` is a sequence of blocks; that of `Fs` has a flag for each block and a table of inodes. A
sequence of blocks is the image of a file system when each block outside the log says what the file system has there.
 */
module CrashFs {
  import opened Blocks
  import opened Ownership
  import opened Files
  import opened Trees
  import opened Fs
  import opened Dinodes
  import DiskCalls
  import Links
  import Mkfs
  import Crash = CrashAtomicity

  // ----- images

  /** Block `x`, at number `b`, holds what the file system has there: the flags of a part of the bitmap, some inodes, or
  data. */
  ghost predicate Says(fs: FileSystem, d: Disk, b: nat, x: Block) {
    && (fs.nmeta <= b < |d.blocks| ==> x == d.blocks[b])
    && (forall c: nat :: c < |d.bitmap| && fs.BBlock(c) == b ==> (FlagAt(x, c % BPB) <==> d.bitmap[c]))
    && (forall i: nat :: i < |d.inodes| && fs.IBlock(i) == b ==> DinodeAt(x, i % IPB) == d.inodes[i])
  }

  ghost predicate Image(fs: FileSystem, l: Crash.Layout, raw: Crash.Disk, d: Disk) {
    && |raw| == |d.blocks| == |d.bitmap| && d.nmeta == fs.nmeta
    && forall b: nat :: b < |raw| && !Crash.InLog(l, b) ==> Says(fs, d, b, raw[b])
  }

  /** Inode blocks and bitmap lie below the data on a disk of `n` blocks. */
  ghost predicate Placed(fs: FileSystem, n: nat, inodes: nat) {
    && fs.nmeta <= n
    && (forall c: nat :: c < n ==> fs.BBlock(c) < fs.nmeta)
    && (forall i: nat :: i < inodes ==> fs.IBlock(i) < fs.nmeta)
  }

  /** And they overlap neither each other nor the log. */
  ghost predicate Apart(fs: FileSystem, l: Crash.Layout, n: nat, inodes: nat) {
    && Placed(fs, n, inodes)
    && (forall c: nat :: c < n ==> !Crash.InLog(l, fs.BBlock(c)))
    && (forall i: nat :: i < inodes ==> !Crash.InLog(l, fs.IBlock(i)))
    && (forall c: nat, i: nat :: c < n && i < inodes ==> fs.BBlock(c) != fs.IBlock(i))
    && forall b: nat :: fs.nmeta <= b ==> !Crash.InLog(l, b)
  }

  /** The layout of `mkfs`. */
  lemma MkfsIsApart(fs: FileSystem)
    requires fs.nmeta == Mkfs.NMETA && fs.inodestart == 2 + Crash.LOGSIZE && fs.bmapstart == Mkfs.NMETA - 1
    ensures Apart(fs, Crash.Layout(2, 30), 1000, 200) && fs.inodestart == 32 && fs.bmapstart == 58 && fs.nmeta == 59
    ensures (forall i: nat :: i < 200 ==> 32 <= fs.IBlock(i) < 58) && forall b: nat :: b < 1000 ==> fs.BBlock(b) == 58
  {
  }

  /** The file system that the kernel finds on a disk with `n` inodes. */
  ghost function Mounted(fs: FileSystem, raw: Crash.Disk, n: nat): (d: Disk)
    requires Placed(fs, |raw|, n)
  {
    Disk(fs.nmeta, seq(|raw|, c requires 0 <= c < |raw| => FlagAt(raw[fs.BBlock(c)], c % BPB)), raw,
         seq(n, i requires 0 <= i < n => DinodeAt(raw[fs.IBlock(i)], i % IPB)))
  }

  /** The same flags and inodes, and the same data from the end of the metadata on. */
  ghost predicate SameFs(d: Disk, e: Disk) {
    && e.nmeta == d.nmeta && e.bitmap == d.bitmap && e.inodes == d.inodes && |e.blocks| == |d.blocks|
    && forall b: nat :: d.nmeta <= b < |d.blocks| ==> e.blocks[b] == d.blocks[b]
  }

  /** On the image of a file system the kernel finds that one, and no other. */
  lemma MountedIsSame(fs: FileSystem, l: Crash.Layout, raw: Crash.Disk, d: Disk)
    requires Image(fs, l, raw, d) && Apart(fs, l, |raw|, |d.inodes|)
    ensures SameFs(d, Mounted(fs, raw, |d.inodes|))
  {
    hide FlagAt, DinodeAt;
    var e := Mounted(fs, raw, |d.inodes|);
    forall c: nat | c < |raw|
      ensures e.bitmap[c] == d.bitmap[c]
    {
      assert Says(fs, d, fs.BBlock(c), raw[fs.BBlock(c)]);
    }
    forall i: nat | i < |d.inodes|
      ensures e.inodes[i] == d.inodes[i]
    {
      assert Says(fs, d, fs.IBlock(i), raw[fs.IBlock(i)]);
    }
    forall b: nat | d.nmeta <= b < |raw|
      ensures e.blocks[b] == d.blocks[b]
    {
      assert Says(fs, d, b, raw[b]);
    }
  }

  lemma SameRefs(d: Disk, e: Disk, owner: Owner, s: Slot)
    requires Owned(d, owner) && SameFs(d, e) && IsSlot(d, s)
    ensures Ref(e, s) == Ref(d, s) && (Ref(d, s) != 0 ==> d.nmeta <= Ref(d, s) < |d.blocks|)
  {
    assert SlotOk(d, owner, s) && SlotOk(d, owner, Slot(s.inum, INDIRECT));
  }

  /** Order and tree do not depend on the bytes of the metadata area. */
  lemma SameFsIsGood(d: Disk, e: Disk)
    requires SameFs(d, e) && Good(d)
    ensures Good(e) && TreeOn(e) == TreeOn(d)
  {
    var owner: Owner :| Owned(d, owner);
    forall s: Slot | IsSlot(d, s)
      ensures Ref(e, s) == Ref(d, s) && SlotOk(e, owner, s)
    {
      SameRefs(d, e, owner, s);
      assert SlotOk(d, owner, s);
    }
    forall b: nat | b < |e.bitmap|
      ensures BlockOk(e, owner, b)
    {
      assert BlockOk(d, owner, b);
    }
    assert Owned(e, owner);
    SameTree(d, e, owner);
  }

  lemma SameTree(d: Disk, e: Disk, owner: Owner)
    requires Owned(d, owner) && SameFs(d, e)
    ensures TreeOn(e) == TreeOn(d) && (DirsWhole(d) ==> DirsWhole(e))
  {
    hide Owned, Links.TreeOk;
    forall i: nat | i < |d.inodes|
      ensures SameFile(d, e, i) && (DirWhole(d, i) ==> DirWhole(e, i))
    {
      SameFileToo(d, e, owner, i);
    }
    hide SameFs, SameFile, DirWhole, EntriesOn;
    SameTrees(d, e);
  }

  lemma SameFileToo(d: Disk, e: Disk, owner: Owner, i: nat)
    requires Owned(d, owner) && SameFs(d, e) && i < |d.inodes|
    ensures SameFile(d, e, i) && (DirWhole(d, i) ==> DirWhole(e, i))
  {
    forall p: nat | p < LIMIT
      ensures FileByte(e, i, p) == FileByte(d, i, p)
    {
      SameRefs(d, e, owner, Slot(i, SlotOf(p / BSIZE)));
    }
    forall bn: nat | bn < MAXFILE
      ensures HasBlock(e, i, bn) == HasBlock(d, i, bn)
    {
      SameRefs(d, e, owner, Slot(i, SlotOf(bn)));
    }
  }

  lemma SameTrees(d: Disk, e: Disk)
    requires |d.inodes| == |e.inodes| && forall i: nat :: i < |d.inodes| ==> SameFile(d, e, i)
    ensures TreeOn(e) == TreeOn(d)
  {
    hide EntriesOn;
    forall i: nat | i < |d.inodes|
      ensures EntriesOn(e, i) == EntriesOn(d, i) && e.inodes[i] == d.inodes[i]
    {
      SameFileSameEntries(d, e, i);
    }
    assert TreeOn(e).typ == TreeOn(d).typ && TreeOn(e).nlink == TreeOn(d).nlink && TreeOn(e).dirs == TreeOn(d).dirs;
  }

  lemma ImageSameHome(fs: FileSystem, l: Crash.Layout, raw: Crash.Disk, other: Crash.Disk, d: Disk)
    requires Image(fs, l, raw, d) && Crash.SameHome(l, other, raw)
    ensures Image(fs, l, other, d)
  {
    hide Says;
    forall b: nat | b < |other| && !Crash.InLog(l, b)
      ensures Says(fs, d, b, other[b])
    {
      assert Says(fs, d, b, raw[b]);
    }
  }

  // ----- every file system has an image

  ghost predicate AllFit(d: Disk) {
    forall i: nat :: i < |d.inodes| ==> Fits(d.inodes[i])
  }

  /** The first `n` inodes of a block of inodes. */
  ghost function InodeBlock(d: Disk, first: nat, n: nat): Block
    requires AllFit(d) && n <= IPB
  {
    if n == 0 then ZERO_BLOCK
    else
      var b := InodeBlock(d, first, n - 1);
      if first + n - 1 < |d.inodes| then PutDinode(b, n - 1, d.inodes[first + n - 1]) else b
  }

  lemma {:induction false} InodesOfBlock(d: Disk, first: nat, n: nat, j: nat)
    requires AllFit(d) && j < n <= IPB && first + j < |d.inodes|
    ensures DinodeAt(InodeBlock(d, first, n), j) == d.inodes[first + j]
  {
    hide DinodeAt, PutDinode;
    var k: nat := n - 1;
    var b := InodeBlock(d, first, k);
    if first + k < |d.inodes| {
      DinodeRoundTrip(b, k, d.inodes[first + k], j);
    }
    if j < k {
      InodesOfBlock(d, first, k, j);
    }
  }

  /** What block `b` holds. */
  ghost function BlockOf(fs: FileSystem, d: Disk, b: nat): Block
    requires AllFit(d) && b < |d.blocks|
  {
    if b >= fs.nmeta then d.blocks[b]
    else if fs.inodestart <= b && IPB * (b - fs.inodestart) < |d.inodes| then
      InodeBlock(d, IPB * (b - fs.inodestart), IPB)
    else if fs.bmapstart <= b then FlagBlock(d.bitmap, BPB * (b - fs.bmapstart))
    else ZERO_BLOCK
  }

  lemma FirstOfBlock(fs: FileSystem, b: nat)
    ensures fs.inodestart <= b ==> fs.IBlock(IPB * (b - fs.inodestart)) == b
  {
  }

  /** Every file system whose numbers fit in their fields has an image, so whatever calls log can be written. */
  lemma BlockOfSays(fs: FileSystem, l: Crash.Layout, d: Disk, b: nat)
    requires AllFit(d) && b < |d.blocks| == |d.bitmap| && Apart(fs, l, |d.blocks|, |d.inodes|)
    ensures Says(fs, d, b, BlockOf(fs, d, b))
  {
    hide DinodeAt, FlagAt, FlagBlock, InodeBlock;
    var x := BlockOf(fs, d, b);
    forall c: nat | c < |d.bitmap| && fs.BBlock(c) == b
      ensures FlagAt(x, c % BPB) <==> d.bitmap[c]
    {
      var base := BPB * (b - fs.bmapstart);
      assert c == base + c % BPB;
      FirstOfBlock(fs, b);
      FlagsOfBlock(d.bitmap, base, c % BPB);
    }
    forall i: nat | i < |d.inodes| && fs.IBlock(i) == b
      ensures DinodeAt(x, i % IPB) == d.inodes[i]
    {
      var first := IPB * (b - fs.inodestart);
      assert i == first + i % IPB;
      InodesOfBlock(d, first, IPB, i % IPB);
    }
  }

  /** So does every list of logged blocks have a group to be committed. */
  lemma LoggedHasGroup(fs: FileSystem, l: Crash.Layout, was: Disk, now: Disk, logs: set<nat>, blocks: seq<nat>)
    requires AllFit(now) && |now.blocks| == |now.bitmap| && Apart(fs, l, |now.blocks|, |now.inodes|)
    requires now.nmeta == fs.nmeta && fs.Journaled(was, {}, now, logs)
    requires (forall b: nat :: b in logs ==> b in blocks) && forall j: nat :: j < |blocks| ==> blocks[j] < |now.blocks|
    ensures exists contents: seq<Block> :: Transaction(fs, was, now, logs, Crash.Group(blocks, contents))
  {
    hide Says, BlockOf, AllFit, Apart, fs.Journaled;
    var contents: seq<Block> := seq(|blocks|, j requires 0 <= j < |blocks| => BlockOf(fs, now, blocks[j]));
    forall j: nat | j < |blocks|
      ensures Says(fs, now, blocks[j], contents[j])
    {
      BlockOfSays(fs, l, now, blocks[j]);
    }
    assert Transaction(fs, was, now, logs, Crash.Group(blocks, contents));
  }

  // ----- one transaction

  /** The file system is in order. */
  ghost predicate Good(d: Disk) {
    (exists owner: Owner :: Owned(d, owner)) && DirsWhole(d) && Links.TreeOk(TreeOn(d))
  }

  /** From `was` to `now` calls logged the blocks `logs`, and the group that `commit` writes holds those as they are
  now. */
  ghost predicate Transaction(fs: FileSystem, was: Disk, now: Disk, logs: set<nat>, g: Crash.Group) {
    && fs.Journaled(was, {}, now, logs) && |now.blocks| == |now.bitmap| && now.nmeta == fs.nmeta
    && |g.blocks| == |g.contents|
    && (forall b: nat :: b in logs ==> b in g.blocks)
    && forall j: nat :: j < |g.blocks| ==> Says(fs, now, g.blocks[j], g.contents[j])
  }

  /** The calls since `was` make one when their logged blocks are committed as they are now: each leaves disk and tree
  in order, and what it changes is journaled. */
  lemma CallsMakeTransaction(fs: FileSystem, was: Disk, mid: Disk, logs: set<nat>, g: Crash.Group)
    requires DiskCalls.Sound(fs) && Links.TreeOk(DiskCalls.Tree(fs))
    requires fs.Journaled(was, {}, mid, logs) && fs.Journaled(mid, logs, fs.OnDisk(), fs.logged)
    requires |g.blocks| == |g.contents| && forall b: nat :: b in fs.logged ==> b in g.blocks
    requires forall j: nat :: j < |g.blocks| ==> Says(fs, fs.OnDisk(), g.blocks[j], g.contents[j])
    ensures Transaction(fs, was, fs.OnDisk(), fs.logged, g) && Good(fs.OnDisk())
  {
    hide Says, TreeOn, Links.TreeOk, fs.Journaled;
    fs.JournaledTwice(was, {}, mid, logs, fs.OnDisk(), fs.logged);
  }

  lemma {:induction false} OverlaySays(fs: FileSystem, d: Disk, g: Crash.Group, k: nat, b: nat, was: Block)
    requires k <= |g.blocks| == |g.contents|
    requires forall j: nat :: j < |g.blocks| ==> Says(fs, d, g.blocks[j], g.contents[j])
    requires b !in g.blocks[..k] ==> Says(fs, d, b, was)
    ensures Says(fs, d, b, Crash.Overlay(g.blocks, g.contents, k, b, was))
  {
    hide Says;
    if k > 0 && g.blocks[k - 1] != b {
      OverlaySays(fs, d, g, k - 1, b, was);
    }
  }

  /** A block that was not logged says the same of both. */
  lemma UnloggedSays(fs: FileSystem, was: Disk, now: Disk, logs: set<nat>, b: nat, x: Block)
    requires fs.Journaled(was, {}, now, logs) && b !in logs && Says(fs, was, b, x)
    ensures Says(fs, now, b, x)
  {
  }

  /** The group in place makes the image of the new file system. */
  lemma GroupMakesImage(fs: FileSystem, l: Crash.Layout, raw: Crash.Disk, was: Disk, now: Disk, logs: set<nat>,
                        g: Crash.Group)
    requires Image(fs, l, raw, was) && Transaction(fs, was, now, logs, g) && Crash.GroupOk(l, |raw|, g)
    ensures Image(fs, l, Crash.Applied(raw, g, |g.blocks|), now)
  {
    hide Says;
    var n := |g.blocks|;
    forall b: nat | b < |raw| && !Crash.InLog(l, b)
      ensures Says(fs, now, b, Crash.Applied(raw, g, n)[b])
    {
      Crash.AppliedAt(raw, g, n, b);
      if b !in g.blocks {
        UnloggedSays(fs, was, now, logs, b, raw[b]);
      }
      assert g.blocks[..n] == g.blocks;
      OverlaySays(fs, now, g, n, b, raw[b]);
    }
  }

  /** A commit that crashes after `k` block writes: what recovery leaves is the image of the file system without the
  transaction, or with all of it once the header is written. */
  lemma TransactionIsAtomic(fs: FileSystem, l: Crash.Layout, raw: Crash.Disk, was: Disk, now: Disk, logs: set<nat>,
                            g: Crash.Group, k: nat)
    requires Crash.LogOk(l, raw) && Crash.HeadCount(raw[l.start]) == 0 && Crash.GroupOk(l, |raw|, g)
    requires Image(fs, l, raw, was) && Transaction(fs, was, now, logs, g) && k <= 2 * |g.blocks| + 2
    ensures Crash.LogOk(l, Crash.CommitDisk(l, raw, g, k))
    ensures Image(fs, l, Crash.Recovered(l, Crash.CommitDisk(l, raw, g, k)), if k <= |g.blocks| then was else now)
  {
    hide Image, Transaction, Crash.Recovered, Crash.CommitDisk, Crash.SameHome, Crash.LogOk, Crash.HeadCount;
    Crash.CommitIsAtomic(l, raw, g, k);
    GroupMakesImage(fs, l, raw, was, now, logs, g);
    ImageSameHome(fs, l, if k <= |g.blocks| then raw else Crash.Applied(raw, g, |g.blocks|),
                  Crash.Recovered(l, Crash.CommitDisk(l, raw, g, k)), if k <= |g.blocks| then was else now);
  }

  // ----- whole runs

  /** What happens to the machine, with the file system and the blocks logged at the end of the transaction. */
  datatype Step = Step(e: Crash.Event, now: Disk, logs: set<nat>)

  /** The transaction of a commit leads from `was` to a file system in order. */
  ghost predicate Carries(fs: FileSystem, was: Disk, s: Step) {
    s.e.Commit? || s.e.CrashInCommit? ==> Transaction(fs, was, s.now, s.logs, s.e.g) && Good(s.now)
  }

  /** The file system that the disk holds after a step, or will hold when it is recovered. */
  ghost function After(was: Disk, s: Step): Disk {
    match s.e
    case Commit(g) => s.now
    case CrashInCommit(g, k) => if k <= |g.blocks| then was else s.now
    case _ => was
  }

  /** The machine's disk will be the image of `d` when it is recovered, and is it while the machine runs. */
  ghost predicate Holds(fs: FileSystem, l: Crash.Layout, m: Crash.Machine, d: Disk) {
    && Crash.LogOk(l, m.d) && Image(fs, l, Crash.Recovered(l, m.d), d)
    && (m.running ==> Crash.HeadCount(m.d[l.start]) == 0 && Image(fs, l, m.d, d))
  }

  lemma SameSizes(fs: FileSystem, was: Disk, s: Step)
    requires Carries(fs, was, s)
    ensures |After(was, s).blocks| == |was.blocks| && |After(was, s).inodes| == |was.inodes|
  {
  }

  lemma StepHolds(fs: FileSystem, l: Crash.Layout, m: Crash.Machine, was: Disk, s: Step)
    requires Holds(fs, l, m, was) && Crash.CanHappen(l, m, s.e) && Carries(fs, was, s)
    ensures Holds(fs, l, Crash.Next(l, m, s.e), After(was, s))
    ensures |After(was, s).blocks| == |was.blocks| && |After(was, s).inodes| == |was.inodes|
  {
    SameSizes(fs, was, s);
    hide Image, Transaction, Good, Crash.Recovered, Crash.CommitDisk, Crash.RecoveryDisk, Crash.Applied;
    var expected := Crash.Recovered(l, m.d);
    if m.running {
      Crash.CleanStaysPut(l, m.d);
    }
    assert Crash.Sound(l, m, expected);
    Crash.EachEventIsSound(l, m, expected, s.e);
    if s.e.Commit? || s.e.CrashInCommit? {
      GroupMakesImage(fs, l, expected, was, s.now, s.logs, s.e.g);
    }
    var m', e := Crash.Next(l, m, s.e), Crash.Expected(expected, s.e);
    assert Image(fs, l, e, After(was, s));
    ImageSameHome(fs, l, e, Crash.Recovered(l, m'.d), After(was, s));
    if m'.running {
      ImageSameHome(fs, l, e, m'.d, After(was, s));
    }
  }

  /** A run of the machine from `m`, with file system `d`, to `m'` with `d'`. */
  ghost predicate Runs(fs: FileSystem, l: Crash.Layout, m: Crash.Machine, d: Disk, steps: seq<Step>, m': Crash.Machine,
                       d': Disk)
    decreases |steps|
  {
    if steps == [] then m' == m && d' == d
    else
      && Crash.CanHappen(l, m, steps[0].e) && Carries(fs, d, steps[0])
      && Runs(fs, l, Crash.Next(l, m, steps[0].e), After(d, steps[0]), steps[1..], m', d')
  }

  /** Through any number of transactions, crashes at any block write, and recoveries cut short, what the next recovery
  leaves is the image of a file system in order: the one after the last transaction that was committed. The kernel finds
  its tree there. */
  lemma {:induction false} EveryRunKeepsFileSystem(fs: FileSystem, l: Crash.Layout, m: Crash.Machine, d: Disk,
                                                   steps: seq<Step>, m': Crash.Machine, d': Disk)
    requires Holds(fs, l, m, d) && Good(d) && Runs(fs, l, m, d, steps, m', d')
    requires Apart(fs, l, |d.blocks|, |d.inodes|)
    ensures Holds(fs, l, m', d') && Good(d') && Placed(fs, |Crash.Recovered(l, m'.d)|, |d.inodes|)
    ensures var e := Mounted(fs, Crash.Recovered(l, m'.d), |d.inodes|); Good(e) && TreeOn(e) == TreeOn(d')
    decreases |steps|
  {
    if steps != [] {
      hide Holds, Good, Transaction, Carries, Apart, Placed, TreeOn, Mounted, Crash.CanHappen, Crash.Next,
          Crash.Recovered;
      StepHolds(fs, l, m, d, steps[0]);
      EveryRunKeepsFileSystem(fs, l, Crash.Next(l, m, steps[0].e), After(d, steps[0]), steps[1..], m', d');
    } else {
      MountedIsSame(fs, l, Crash.Recovered(l, m'.d), d');
      SameFsIsGood(d', Mounted(fs, Crash.Recovered(l, m'.d), |d'.inodes|));
    }
  }
}
