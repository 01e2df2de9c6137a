/** What the disk goes through in a commit and in a recovery, one block write at a time, and why a crash between any two
of those writes leaves a group of file-system calls either wholly done or wholly undone.
 */
module CrashAtomicity {
  import opened Blocks

  const MAXOPBLOCKS := 10
  const LOGSIZE := MAXOPBLOCKS * 3

  type Disk = seq<Block>

  /** The log's place on the disk: a header block and `size - 1` slots. */
  datatype Layout = Layout(start: nat, size: nat)

  ghost predicate InLog(l: Layout, b: nat) {
    l.start <= b < l.start + l.size
  }

  /** The number of blocks a header can name with this layout. */
  function Capacity(l: Layout): int {
    if l.size - 1 < LOGSIZE then l.size - 1 else LOGSIZE
  }

  // ---------- the header block ----------

  function HeadCount(b: Block): nat {
    WordAt(b, 0)
  }

  function HeadBlocks(b: Block): (lh: seq<nat>)
    requires HeadCount(b) <= LOGSIZE
    ensures |lh| == HeadCount(b)
  {
    seq(HeadCount(b), i requires 0 <= i < HeadCount(b) => WordAt(b, i + 1))
  }

  ghost predicate HeaderFits(lh: seq<nat>) {
    |lh| <= LOGSIZE && forall i :: 0 <= i < |lh| ==> lh[i] < WORD_RANGE
  }

  /** The header block with the count and the first `k` entries overwritten; the other words stay as they were. */
  function EncodeEntries(b: Block, lh: seq<nat>, k: nat): (r: Block)
    requires |lh| <= LOGSIZE && k <= |lh| && forall i :: 0 <= i < |lh| ==> lh[i] < WORD_RANGE
  {
    if k == 0 then SetWord(b, 0, |lh|) else SetWord(EncodeEntries(b, lh, k - 1), k, lh[k-1])
  }

  function EncodeHead(b: Block, lh: seq<nat>): (r: Block)
    requires |lh| <= LOGSIZE && forall i :: 0 <= i < |lh| ==> lh[i] < WORD_RANGE
  {
    EncodeEntries(b, lh, |lh|)
  }

  lemma {:induction false} EncodedWords(b: Block, lh: seq<nat>, k: nat, j: nat)
    requires HeaderFits(lh) && k <= |lh| && j <= k
    ensures WordAt(EncodeEntries(b, lh, k), j) == if j == 0 then |lh| else lh[j-1]
  {
    if k == 0 {
      WordAfterSet(b, 0, |lh|, 0);
    } else {
      WordAfterSet(EncodeEntries(b, lh, k - 1), k, lh[k-1], j);
      if j < k {
        EncodedWords(b, lh, k - 1, j);
      }
    }
  }

  /** Reading back a header that was written. */
  lemma HeadRoundTrip(b: Block, lh: seq<nat>)
    requires HeaderFits(lh)
    ensures HeadCount(EncodeHead(b, lh)) == |lh| && HeadBlocks(EncodeHead(b, lh)) == lh
  {
    forall j: nat | j <= |lh|
      ensures WordAt(EncodeHead(b, lh), j) == if j == 0 then |lh| else lh[j-1]
    {
      EncodedHead(b, lh, j);
    }
  }

  /** The layout of the header block: the count and then the block numbers, in little-endian bytes. */
  lemma HeaderBytes(b: Block, lh: seq<nat>)
    requires HeaderFits(lh)
    ensures var c := EncodeHead(b, lh);
            WordIs(c, 0, |lh|) && forall k: nat :: k < |lh| ==> WordIs(c, 4 * k + 4, lh[k])
  {
    var c := EncodeHead(b, lh);
    hide EncodeHead;
    EncodedHead(b, lh, 0);
    WordBytes(c, 0);
    forall k: nat | k < |lh|
      ensures WordIs(c, 4 * k + 4, lh[k])
    {
      EncodedHead(b, lh, k + 1);
      WordBytes(c, k + 1);
    }
  }

  lemma EncodedHead(b: Block, lh: seq<nat>, j: nat)
    requires HeaderFits(lh) && j <= |lh|
    ensures WordAt(EncodeHead(b, lh), j) == if j == 0 then |lh| else lh[j-1]
  {
    EncodedWords(b, lh, |lh|, j);
  }

  // ---------- the writes ----------

  /** Block numbers with new contents for them. */
  datatype Group = Group(blocks: seq<nat>, contents: seq<Block>)

  /** The contents of the named blocks. */
  ghost function ContentsOf(d: Disk, blocks: seq<nat>): (r: seq<Block>)
    requires forall i :: 0 <= i < |blocks| ==> blocks[i] < |d|
    ensures |r| == |blocks| && forall i :: 0 <= i < |r| ==> r[i] == d[blocks[i]]
  {
    seq(|blocks|, i requires 0 <= i < |blocks| => d[blocks[i]])
  }

  ghost predicate LogOk(l: Layout, d: Disk) {
    && 1 <= l.size && l.start + l.size <= |d| <= WORD_RANGE
    && HeadCount(d[l.start]) <= Capacity(l)
    && BlocksOk(l, |d|, HeadBlocks(d[l.start]))
  }

  /** The blocks lie on the disk, outside the log, and the log has room for them. */
  ghost predicate BlocksOk(l: Layout, n: nat, lh: seq<nat>) {
    && |lh| <= Capacity(l)
    && n <= WORD_RANGE
    && forall i :: 0 <= i < |lh| ==> lh[i] < n && !InLog(l, lh[i])
  }

  lemma BlocksFit(l: Layout, n: nat, lh: seq<nat>)
    requires BlocksOk(l, n, lh)
    ensures HeaderFits(lh) && HeaderFits([]) && forall i :: 0 <= i < |lh| ==> lh[i] < n
  {
  }

  ghost predicate GroupOk(l: Layout, n: nat, g: Group) {
    |g.blocks| == |g.contents| && BlocksOk(l, n, g.blocks)
  }

  /** `write_log` after `k` slots. */
  ghost function LogDisk(l: Layout, d: Disk, contents: seq<Block>, k: nat): (r: Disk)
    requires k <= |contents| && l.start + |contents| < |d|
    ensures |r| == |d|
  {
    if k == 0 then d else LogDisk(l, d, contents, k - 1)[l.start + k := contents[k-1]]
  }

  lemma {:induction false} LogDiskAt(l: Layout, d: Disk, contents: seq<Block>, k: nat, b: nat)
    requires k <= |contents| && l.start + |contents| < |d| && b < |d|
    ensures LogDisk(l, d, contents, k)[b] == if l.start < b <= l.start + k then contents[b-l.start-1] else d[b]
  {
    if k > 0 {
      LogDiskAt(l, d, contents, k - 1, b);
    }
  }

  /** Logging a whole group fills the slots and leaves the header and the home blocks. */
  lemma LogDiskWhole(l: Layout, d: Disk, contents: seq<Block>, k: nat)
    requires k <= |contents| < l.size && l.start + l.size <= |d|
    ensures LogDisk(l, d, contents, k)[l.start] == d[l.start]
    ensures k == |contents| ==> LogDisk(l, d, contents, k)[l.start+1..l.start+1+k] == contents
    ensures SameHome(l, LogDisk(l, d, contents, k), d)
  {
    var e := LogDisk(l, d, contents, k);
    forall b | 0 <= b < |d|
      ensures e[b] == if l.start < b <= l.start + k then contents[b-l.start-1] else d[b]
    {
      LogDiskAt(l, d, contents, k, b);
    }
  }

  lemma {:induction false} InstallKeepsLog(l: Layout, d: Disk, lh: seq<nat>, k: nat, b: nat)
    requires k <= |lh| && l.start + l.size <= |d| && BlocksOk(l, |d|, lh) && b < |d| && InLog(l, b)
    ensures InstallDisk(l, d, lh, k)[b] == d[b]
  {
    if k > 0 {
      InstallKeepsLog(l, d, lh, k - 1, b);
    }
  }

  /** `write_head`. */
  ghost function HeadDisk(l: Layout, d: Disk, lh: seq<nat>): (r: Disk)
    requires l.start < |d| && HeaderFits(lh)
  {
    d[l.start := EncodeHead(d[l.start], lh)]
  }

  /** `install_trans` after `k` copies from the log to home blocks. */
  ghost function InstallDisk(l: Layout, d: Disk, lh: seq<nat>, k: nat): (r: Disk)
    requires k <= |lh| && l.start + l.size <= |d| && BlocksOk(l, |d|, lh)
    ensures |r| == |d|
  {
    if k == 0 then d else InstallDisk(l, d, lh, k - 1)[lh[k-1] := d[l.start+k]]
  }

  /** The disk after the first `k` of the `2n + 2` block writes of a commit of `n` blocks. */
  ghost function CommitDisk(l: Layout, d: Disk, g: Group, k: nat): (r: Disk)
    requires LogOk(l, d) && GroupOk(l, |d|, g) && k <= 2 * |g.blocks| + 2
    ensures |r| == |d|
  {
    var n := |g.blocks|;
    if k <= n then LogDisk(l, d, g.contents, k)
    else
      var marked := HeadDisk(l, LogDisk(l, d, g.contents, n), g.blocks);
      if k <= 2 * n + 1 then InstallDisk(l, marked, g.blocks, k - n - 1)
      else HeadDisk(l, InstallDisk(l, marked, g.blocks, n), [])
  }

  /** The disk after the first `k` of the `n + 1` block writes of a recovery that finds `n` blocks in the header. */
  ghost function RecoveryDisk(l: Layout, d: Disk, k: nat): (r: Disk)
    requires LogOk(l, d) && k <= HeadCount(d[l.start]) + 1
    ensures |r| == |d|
  {
    var lh := HeadBlocks(d[l.start]);
    if k <= |lh| then InstallDisk(l, d, lh, k) else HeadDisk(l, InstallDisk(l, d, lh, |lh|), [])
  }

  ghost function Recovered(l: Layout, d: Disk): Disk
    requires LogOk(l, d)
  {
    RecoveryDisk(l, d, HeadCount(d[l.start]) + 1)
  }

  // ---------- the disks in the order in which they are written ----------

  ghost function LogDisks(l: Layout, d: Disk, contents: seq<Block>, k: nat): seq<Disk>
    requires k <= |contents| && l.start + |contents| < |d|
  {
    if k == 0 then [] else LogDisks(l, d, contents, k - 1) + [LogDisk(l, d, contents, k)]
  }

  ghost function InstallDisks(l: Layout, d: Disk, lh: seq<nat>, k: nat): seq<Disk>
    requires k <= |lh| && l.start + l.size <= |d| && BlocksOk(l, |d|, lh)
  {
    if k == 0 then [] else InstallDisks(l, d, lh, k - 1) + [InstallDisk(l, d, lh, k)]
  }

  ghost function CommitDisks(l: Layout, d: Disk, g: Group, k: nat): seq<Disk>
    requires LogOk(l, d) && GroupOk(l, |d|, g) && k <= 2 * |g.blocks| + 2
  {
    if k == 0 then [] else CommitDisks(l, d, g, k - 1) + [CommitDisk(l, d, g, k)]
  }

  ghost function RecoveryDisks(l: Layout, d: Disk, k: nat): seq<Disk>
    requires LogOk(l, d) && k <= HeadCount(d[l.start]) + 1
  {
    if k == 0 then [] else RecoveryDisks(l, d, k - 1) + [RecoveryDisk(l, d, k)]
  }

  lemma {:induction false} CommitStartsWithLogging(l: Layout, d: Disk, g: Group, k: nat)
    requires LogOk(l, d) && GroupOk(l, |d|, g) && k <= |g.blocks|
    ensures CommitDisk(l, d, g, k) == LogDisk(l, d, g.contents, k) &&
              CommitDisks(l, d, g, k) == LogDisks(l, d, g.contents, k)
    ensures k == 0 ==> CommitDisk(l, d, g, k) == d && CommitDisks(l, d, g, k) == []
  {
    if k > 0 {
      CommitStartsWithLogging(l, d, g, k - 1);
    }
  }

  lemma CommitThenMarks(l: Layout, d: Disk, g: Group)
    requires LogOk(l, d) && GroupOk(l, |d|, g)
    ensures Marked(l, d, g) == HeadDisk(l, LogDisk(l, d, g.contents, |g.blocks|), g.blocks)
    ensures CommitDisk(l, d, g, |g.blocks| + 1) == Marked(l, d, g) && |Marked(l, d, g)| == |d|
    ensures CommitDisks(l, d, g, |g.blocks| + 1) == CommitDisks(l, d, g, |g.blocks|) + [Marked(l, d, g)]
  {
    assert CommitDisk(l, d, g, |g.blocks| + 1) == Marked(l, d, g);
  }

  lemma {:induction false} CommitThenInstalls(l: Layout, d: Disk, g: Group, k: nat)
    requires LogOk(l, d) && GroupOk(l, |d|, g) && k <= |g.blocks|
    ensures CommitDisk(l, d, g, |g.blocks| + 1 + k) == InstallDisk(l, Marked(l, d, g), g.blocks, k)
    ensures CommitDisks(l, d, g, |g.blocks| + 1 + k)
         == CommitDisks(l, d, g, |g.blocks| + 1) + InstallDisks(l, Marked(l, d, g), g.blocks, k)
  {
    if k > 0 {
      CommitThenInstalls(l, d, g, k - 1);
      assert CommitDisk(l, d, g, |g.blocks| + 1 + k) == InstallDisk(l, Marked(l, d, g), g.blocks, k);
    }
  }

  lemma CommitThenErases(l: Layout, d: Disk, g: Group)
    requires LogOk(l, d) && GroupOk(l, |d|, g)
    ensures var n := |g.blocks|;
            && CommitDisk(l, d, g, 2 * n + 2) == HeadDisk(l, InstallDisk(l, Marked(l, d, g), g.blocks, n), [])
            && CommitDisks(l, d, g, 2 * n + 2) == CommitDisks(l, d, g, 2 * n + 1) + [CommitDisk(l, d, g, 2 * n + 2)]
  {
  }

  lemma RecoveryThenErases(l: Layout, d: Disk)
    requires LogOk(l, d)
    ensures var lh := HeadBlocks(d[l.start]);
            && RecoveryDisk(l, d, |lh| + 1) == Recovered(l, d) == HeadDisk(l, InstallDisk(l, d, lh, |lh|), [])
            && RecoveryDisks(l, d, |lh| + 1) == RecoveryDisks(l, d, |lh|) + [Recovered(l, d)]
  {
  }

  lemma {:induction false} RecoveryStartsWithInstalls(l: Layout, d: Disk, k: nat)
    requires LogOk(l, d) && k <= HeadCount(d[l.start])
    ensures RecoveryDisk(l, d, k) == InstallDisk(l, d, HeadBlocks(d[l.start]), k)
    ensures RecoveryDisks(l, d, k) == InstallDisks(l, d, HeadBlocks(d[l.start]), k)
    ensures k == 0 ==> RecoveryDisk(l, d, k) == d && RecoveryDisks(l, d, k) == []
  {
    if k > 0 {
      RecoveryStartsWithInstalls(l, d, k - 1);
    }
  }

  // ---------- home blocks ----------

  /** The two disks agree everywhere outside the log. */
  ghost predicate SameHome(l: Layout, d: Disk, e: Disk) {
    |d| == |e| && forall b :: 0 <= b < |d| && !InLog(l, b) ==> d[b] == e[b]
  }

  /** The disk with the whole group in place. */
  ghost function Applied(d: Disk, g: Group, k: nat): (r: Disk)
    requires k <= |g.blocks| == |g.contents| && forall i :: 0 <= i < |g.blocks| ==> g.blocks[i] < |d|
    ensures |r| == |d|
  {
    if k == 0 then d else Applied(d, g, k - 1)[g.blocks[k-1] := g.contents[k-1]]
  }

  /** The contents of block `b` once the first `k` blocks of the group are in place, `was` before. */
  ghost function Overlay(blocks: seq<nat>, contents: seq<Block>, k: nat, b: nat, was: Block): Block
    requires k <= |blocks| <= |contents|
  {
    if k == 0 then was else if blocks[k-1] == b then contents[k-1] else Overlay(blocks, contents, k - 1, b, was)
  }

  lemma {:induction false} AppliedAt(d: Disk, g: Group, k: nat, b: nat)
    requires k <= |g.blocks| == |g.contents| && forall i :: 0 <= i < |g.blocks| ==> g.blocks[i] < |d|
    requires b < |d|
    ensures Applied(d, g, k)[b] == Overlay(g.blocks, g.contents, k, b, d[b])
  {
    if k > 0 {
      AppliedAt(d, g, k - 1, b);
    }
  }

  lemma {:induction false} InstalledAt(l: Layout, d: Disk, lh: seq<nat>, k: nat, b: nat)
    requires k <= |lh| && l.start + l.size <= |d| && BlocksOk(l, |d|, lh) && b < |d|
    ensures InstallDisk(l, d, lh, k)[b] == Overlay(lh, d[l.start+1..l.start+1+|lh|], k, b, d[b])
  {
    if k > 0 {
      InstalledAt(l, d, lh, k - 1, b);
      assert d[l.start+1..l.start+1+|lh|][k-1] == d[l.start+k];
    }
  }

  /** Installing the whole group over a part of it is installing the group. */
  lemma {:induction false} OverlayAgain(blocks: seq<nat>, contents: seq<Block>, j: nat, k: nat, b: nat, was: Block)
    requires j <= k <= |blocks| <= |contents|
    ensures Overlay(blocks, contents, k, b, Overlay(blocks, contents, j, b, was)) ==
              Overlay(blocks, contents, k, b, was)
  {
    if k > j {
      OverlayAgain(blocks, contents, j, k - 1, b, was);
    } else if k > 0 && blocks[k-1] != b {
      OverlayAgain(blocks, contents, k - 1, k - 1, b, was);
    }
  }

  lemma RecoveredIsClean(l: Layout, d: Disk)
    requires LogOk(l, d)
    ensures LogOk(l, Recovered(l, d)) && HeadCount(Recovered(l, d)[l.start]) == 0
  {
    var lh := HeadBlocks(d[l.start]);
    var e := InstallDisk(l, d, lh, |lh|);
    HeadRoundTrip(e[l.start], []);
  }

  lemma RecoveredAt(l: Layout, d: Disk, b: nat)
    requires LogOk(l, d) && b < |d| && !InLog(l, b)
    ensures var lh := HeadBlocks(d[l.start]);
            Recovered(l, d)[b] == Overlay(lh, d[l.start+1..l.start+1+|lh|], |lh|, b, d[b])
  {
    var lh := HeadBlocks(d[l.start]);
    InstalledAt(l, d, lh, |lh|, b);
  }

  /** With an empty log there is nothing to recover. */
  lemma CleanStaysPut(l: Layout, d: Disk)
    requires LogOk(l, d) && HeadCount(d[l.start]) == 0
    ensures SameHome(l, Recovered(l, d), d)
  {
    forall b | 0 <= b < |d| && !InLog(l, b)
      ensures Recovered(l, d)[b] == d[b]
    {
      RecoveredAt(l, d, b);
    }
  }

  // ---------- a crash during a recovery ----------

  /** Installing leaves header and slots alone. */
  lemma InstallKeepsSlots(l: Layout, d: Disk, k: nat)
    requires LogOk(l, d) && k <= HeadCount(d[l.start])
    ensures var lh, t := HeadBlocks(d[l.start]), InstallDisk(l, d, HeadBlocks(d[l.start]), k);
      && LogOk(l, t) && |t| == |d| && t[l.start] == d[l.start]
      && t[l.start+1..l.start+1+|lh|] == d[l.start+1..l.start+1+|lh|]
  {
    var lh := HeadBlocks(d[l.start]);
    var t := InstallDisk(l, d, lh, k);
    forall b | 0 <= b < |d| && InLog(l, b)
      ensures t[b] == d[b]
    {
      InstallKeepsLog(l, d, lh, k, b);
    }
    assert t[l.start] == d[l.start];
  }

  lemma InstallingKeepsBlock(l: Layout, d: Disk, k: nat, b: nat)
    requires LogOk(l, d) && k <= HeadCount(d[l.start]) && b < |d| && !InLog(l, b)
    ensures var t := InstallDisk(l, d, HeadBlocks(d[l.start]), k);
      LogOk(l, t) && |t| == |d| && Recovered(l, t)[b] == Recovered(l, d)[b]
  {
    var lh := HeadBlocks(d[l.start]);
    var t, slots := InstallDisk(l, d, lh, k), d[l.start+1..l.start+1+|lh|];
    InstallKeepsSlots(l, d, k);
    InstalledAt(l, d, lh, k, b);
    RecoveredAt(l, d, b);
    RecoveredAt(l, t, b);
    hide Recovered, HeadBlocks, InstallDisk, Overlay, LogOk, HeadCount;
    OverlayAgain(lh, slots, k, |lh|, b, d[b]);
  }

  lemma InstallingKeepsRecovered(l: Layout, d: Disk, k: nat)
    requires LogOk(l, d) && k <= HeadCount(d[l.start])
    ensures var t := InstallDisk(l, d, HeadBlocks(d[l.start]), k);
      LogOk(l, t) && SameHome(l, Recovered(l, t), Recovered(l, d))
  {
    var t := InstallDisk(l, d, HeadBlocks(d[l.start]), k);
    InstallKeepsSlots(l, d, k);
    hide Recovered, HeadBlocks, InstallDisk, HeadCount;
    forall b: nat | b < |d| && !InLog(l, b)
      ensures Recovered(l, t)[b] == Recovered(l, d)[b]
    {
      InstallingKeepsBlock(l, d, k, b);
    }
  }

  /** Recovery can be cut short after any of its writes and started over. */
  lemma RecoveryIsIdempotent(l: Layout, d: Disk, k: nat)
    requires LogOk(l, d) && k <= HeadCount(d[l.start]) + 1
    ensures LogOk(l, RecoveryDisk(l, d, k))
    ensures SameHome(l, Recovered(l, RecoveryDisk(l, d, k)), Recovered(l, d))
  {
    if k <= HeadCount(d[l.start]) {
      InstallingKeepsRecovered(l, d, k);
    } else {
      RecoveredIsClean(l, d);
      CleanStaysPut(l, Recovered(l, d));
    }
  }

  // ---------- a crash during a commit ----------

  /** The disk once the header names the group: the commit point. */
  ghost function Marked(l: Layout, d: Disk, g: Group): Disk
    requires LogOk(l, d) && GroupOk(l, |d|, g)
  {
    HeadDisk(l, LogDisk(l, d, g.contents, |g.blocks|), g.blocks)
  }

  lemma MarkedRecoversToApplied(l: Layout, d: Disk, g: Group)
    requires LogOk(l, d) && GroupOk(l, |d|, g)
    ensures LogOk(l, Marked(l, d, g)) && HeadBlocks(Marked(l, d, g)[l.start]) == g.blocks
    ensures SameHome(l, Recovered(l, Marked(l, d, g)), Applied(d, g, |g.blocks|))
  {
    var n, marked := |g.blocks|, Marked(l, d, g);
    var logged := LogDisk(l, d, g.contents, n);
    LogDiskWhole(l, d, g.contents, n);
    HeadRoundTrip(logged[l.start], g.blocks);
    assert marked[l.start+1..l.start+1+n] == logged[l.start+1..l.start+1+n];
    assert marked[l.start+1..l.start+1+n] == g.contents;
    forall b | 0 <= b < |d| && !InLog(l, b)
      ensures Recovered(l, marked)[b] == Applied(d, g, n)[b]
    {
      RecoveredAt(l, marked, b);
      AppliedAt(d, g, n, b);
    }
  }

  /** From the commit point on, a commit does what a recovery would do. */
  lemma CommitTailIsRecovery(l: Layout, d: Disk, g: Group, k: nat)
    requires LogOk(l, d) && GroupOk(l, |d|, g) && |g.blocks| < k <= 2 * |g.blocks| + 2
    ensures LogOk(l, Marked(l, d, g)) && HeadCount(Marked(l, d, g)[l.start]) == |g.blocks|
    ensures CommitDisk(l, d, g, k) == RecoveryDisk(l, Marked(l, d, g), k - |g.blocks| - 1)
  {
    MarkedRecoversToApplied(l, d, g);
  }

  lemma SameHomeTwice(l: Layout, d: Disk, e: Disk, f: Disk)
    requires SameHome(l, d, e) && SameHome(l, e, f)
    ensures SameHome(l, d, f)
  {
  }

  /** Before the commit point a recovery finds an empty log. */
  lemma CrashBeforeMark(l: Layout, d: Disk, g: Group, k: nat)
    requires LogOk(l, d) && HeadCount(d[l.start]) == 0 && GroupOk(l, |d|, g) && k <= |g.blocks|
    ensures LogOk(l, CommitDisk(l, d, g, k)) && SameHome(l, Recovered(l, CommitDisk(l, d, g, k)), d)
  {
    LogDiskWhole(l, d, g.contents, k);
    CleanStaysPut(l, LogDisk(l, d, g.contents, k));
  }

  /** From it on, a recovery carries on where the commit was cut short. */
  lemma CrashAfterMark(l: Layout, d: Disk, g: Group, k: nat)
    requires LogOk(l, d) && GroupOk(l, |d|, g) && |g.blocks| < k <= 2 * |g.blocks| + 2
    ensures LogOk(l, CommitDisk(l, d, g, k)) &&
              SameHome(l, Recovered(l, CommitDisk(l, d, g, k)), Applied(d, g, |g.blocks|))
  {
    MarkedRecoversToApplied(l, d, g);
    CommitTailIsRecovery(l, d, g, k);
    var m, e := Marked(l, d, g), CommitDisk(l, d, g, k);
    var rest: nat := k - |g.blocks| - 1;
    hide LogOk, Recovered, RecoveryDisk, CommitDisk, Marked, Applied, SameHome, HeadCount, HeadBlocks;
    RecoveryIsIdempotent(l, m, rest);
    SameHomeTwice(l, Recovered(l, e), Recovered(l, m), Applied(d, g, |g.blocks|));
  }

  /** Crashing after `k` writes and then recovering gives the state before the group, or, once the header has been
      written, the state with all of it. */
  lemma CommitIsAtomic(l: Layout, d: Disk, g: Group, k: nat)
    requires LogOk(l, d) && HeadCount(d[l.start]) == 0 && GroupOk(l, |d|, g) && k <= 2 * |g.blocks| + 2
    ensures LogOk(l, CommitDisk(l, d, g, k))
    ensures SameHome(l, Recovered(l, CommitDisk(l, d, g, k)), if k <= |g.blocks| then d else Applied(d, g, |g.blocks|))
  {
    hide Recovered, CommitDisk, Applied, SameHome;
    if k <= |g.blocks| {
      CrashBeforeMark(l, d, g, k);
    } else {
      CrashAfterMark(l, d, g, k);
    }
  }

  /** A commit that runs to its end has the group in place and an empty log. */
  lemma CommitCompletes(l: Layout, d: Disk, g: Group)
    requires LogOk(l, d) && GroupOk(l, |d|, g)
    ensures var e := CommitDisk(l, d, g, 2 * |g.blocks| + 2);
            LogOk(l, e) && HeadCount(e[l.start]) == 0 && SameHome(l, e, Applied(d, g, |g.blocks|))
  {
    MarkedRecoversToApplied(l, d, g);
    CommitTailIsRecovery(l, d, g, 2 * |g.blocks| + 2);
    RecoveredIsClean(l, Marked(l, d, g));
  }

  /** When the group carries the current contents and every other home block is current already, the commit makes the
      whole disk current. */
  lemma AppliedIsCurrent(l: Layout, d: Disk, current: Disk, g: Group)
    requires GroupOk(l, |d|, g) && |current| == |d|
    requires forall i :: 0 <= i < |g.blocks| ==> g.contents[i] == current[g.blocks[i]]
    requires forall b :: 0 <= b < |d| && b !in g.blocks ==> d[b] == current[b]
    ensures SameHome(l, Applied(d, g, |g.blocks|), current)
  {
    forall b | 0 <= b < |d| && !InLog(l, b)
      ensures Applied(d, g, |g.blocks|)[b] == current[b]
    {
      AppliedAt(d, g, |g.blocks|, b);
      OverlayIsCurrent(g.blocks, g.contents, |g.blocks|, b, d[b], current[b]);
    }
  }

  lemma {:induction false} OverlayIsCurrent(blocks: seq<nat>, contents: seq<Block>, k: nat, b: nat, was: Block,
                                            now: Block)
    requires k <= |blocks| <= |contents|
    requires forall i :: 0 <= i < k && blocks[i] == b ==> contents[i] == now
    requires b !in blocks[..k] ==> was == now
    ensures Overlay(blocks, contents, k, b, was) == now
  {
    if k > 0 && blocks[k-1] != b {
      OverlayIsCurrent(blocks, contents, k - 1, b, was, now);
    }
  }

  // ---------- whole runs ----------

  /** One stretch in the life of the machine: a commit that completes, a commit cut short by a crash after `k` block
      writes, a recovery cut short after `k` block writes, or a recovery that completes. */
  datatype Event = Commit(g: Group) | CrashInCommit(g: Group, k: nat) | CrashInRecovery(k: nat) | Recover

  /** The machine's disk, and whether it is running or waiting for a recovery. */
  datatype Machine = Machine(d: Disk, running: bool)

  /** An end_op that logged nothing writes nothing and is no event. */
  ghost predicate CanHappen(l: Layout, m: Machine, e: Event) {
    && LogOk(l, m.d)
    && match e
       case Commit(g) => m.running && GroupOk(l, |m.d|, g) && g.blocks != []
       case CrashInCommit(g, k) => m.running && GroupOk(l, |m.d|, g) && g.blocks != [] && k <= 2 * |g.blocks| + 2
       case CrashInRecovery(k) => !m.running && k <= HeadCount(m.d[l.start]) + 1
       case Recover => !m.running
  }

  ghost function Next(l: Layout, m: Machine, e: Event): Machine
    requires CanHappen(l, m, e)
  {
    match e
    case Commit(g) => Machine(CommitDisk(l, m.d, g, 2 * |g.blocks| + 2), true)
    case CrashInCommit(g, k) => Machine(CommitDisk(l, m.d, g, k), false)
    case CrashInRecovery(k) => Machine(RecoveryDisk(l, m.d, k), false)
    case Recover => Machine(Recovered(l, m.d), true)
  }

  /** What a user of the file system expects: a group is there or not there. */
  ghost function Expected(d: Disk, e: Event): Disk
    requires (e.Commit? || e.CrashInCommit?) ==>
               |e.g.blocks| == |e.g.contents| && forall i :: 0 <= i < |e.g.blocks| ==> e.g.blocks[i] < |d|
  {
    match e
    case Commit(g) => Applied(d, g, |g.blocks|)
    case CrashInCommit(g, k) => if k <= |g.blocks| then d else Applied(d, g, |g.blocks|)
    case _ => d
  }

  ghost predicate Sound(l: Layout, m: Machine, expected: Disk) {
    && LogOk(l, m.d)
    && SameHome(l, Recovered(l, m.d), expected)
    && (m.running ==> HeadCount(m.d[l.start]) == 0 && SameHome(l, m.d, expected))
  }

  lemma EachEventIsSound(l: Layout, m: Machine, expected: Disk, e: Event)
    requires Sound(l, m, expected) && CanHappen(l, m, e)
    ensures Sound(l, Next(l, m, e), Expected(expected, e))
  {
    match e
    case Commit(g) =>
      CommitCompletes(l, m.d, g);
      CommitIsAtomic(l, m.d, g, 2 * |g.blocks| + 2);
      AppliedSameHome(l, m.d, expected, g, |g.blocks|);
    case CrashInCommit(g, k) =>
      CommitIsAtomic(l, m.d, g, k);
      AppliedSameHome(l, m.d, expected, g, |g.blocks|);
    case CrashInRecovery(k) =>
      RecoveryIsIdempotent(l, m.d, k);
    case Recover =>
      RecoveryIsIdempotent(l, m.d, HeadCount(m.d[l.start]) + 1);
      RecoveredIsClean(l, m.d);
  }

  lemma {:induction false} AppliedSameHome(l: Layout, d: Disk, e: Disk, g: Group, k: nat)
    requires k <= |g.blocks| && GroupOk(l, |d|, g) && SameHome(l, d, e)
    ensures SameHome(l, Applied(d, g, k), Applied(e, g, k))
  {
    if k > 0 {
      AppliedSameHome(l, d, e, g, k - 1);
    }
  }

  /** The machine and the expectation after a whole run; `None` when some event could not happen. */
  ghost function Run(l: Layout, m: Machine, expected: Disk, events: seq<Event>): (r: Option<(Machine, Disk)>)
    requires |expected| == |m.d|
    decreases |events|
  {
    if events == [] then Some((m, expected))
    else if !CanHappen(l, m, events[0]) then None
    else Run(l, Next(l, m, events[0]), Expected(expected, events[0]), events[1..])
  }

  /** Through any number of commits, crashes at any block write and crashes of recoveries, the disk a user sees after
      the next completed recovery holds every group wholly or not at all, completed commits included. */
  lemma {:induction false} EveryRunIsAtomic(l: Layout, m: Machine, expected: Disk, events: seq<Event>)
    requires Sound(l, m, expected)
    requires Run(l, m, expected, events).Some?
    ensures var (m', expected') := Run(l, m, expected, events).value; Sound(l, m', expected')
    decreases |events|
  {
    if events != [] {
      EachEventIsSound(l, m, expected, events[0]);
      EveryRunIsAtomic(l, Next(l, m, events[0]), Expected(expected, events[0]), events[1..]);
    }
  }
}
