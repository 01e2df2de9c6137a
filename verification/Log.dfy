/** The write-ahead log: commit, recovery and the reservation of log space.

`Log` holds the fields of the struct `log` and works on the disk through the buffer cache. Each method that writes the
disk is proved to produce exactly the disks of module CrashAtomicity, in order; `w` counts the block writes done so far
and is short of the total only when the buffer cache panicked ("bget: no buffers"), which stops the machine.
 */
module Log {
  import opened Blocks
  import opened Bio
  import opened CrashAtomicity
  import R = Reservation

  class Log {
    const bc: BufferCache
    const layout: Layout
    // lh.block[..lh.n]
    var lh: seq<nat>
    var outstanding: int
    var committing: bool
    // The distinct blocks each outstanding call has logged.
    ghost var ops: seq<set<nat>>

    constructor (bc: BufferCache, layout: Layout)
      ensures this.bc == bc && this.layout == layout && View() == R.INITIAL && outstanding == 0
    {
      this.bc, this.layout := bc, layout;
      lh, outstanding, committing, ops := [], 0, false, [];
    }

    ghost function View(): R.State
      reads this
    {
      R.State(lh, ops, committing)
    }

    /** Between calls: an empty log on the disk, and only logged home blocks pinned. */
    ghost predicate LogValid()
      reads this, bc
    {
      && outstanding == |ops| && bc.Valid() && LogOk(layout, bc.disk) && HeadCount(bc.disk[layout.start]) == 0
      && BlocksOk(layout, |bc.disk|, lh)
      && forall b :: b in bc.pin ==> b in lh
    }

    /** And the reservation discipline, when every call keeps to its budget. */
    ghost predicate LogInv()
      reads this, bc
    {
      LogValid() && R.Disciplined(View())
    }

    /** Nobody holds a buffer with one of `blocks`, the log area among them, nor does anything in that wait for the
        disk. Readers may hold others. */
    ghost predicate Ready(pid: nat, blocks: set<nat>)
      reads this, bc
    {
      && bc.HoldsOnly(pid, {}, blocks) && |bc.latest| == |bc.disk|
      && (forall n: nat :: InLog(layout, n) ==> n in blocks)
      && 1 <= layout.size && layout.start + layout.size <= |bc.disk| <= WORD_RANGE
      && forall b :: b in bc.pin ==> !InLog(layout, b)
    }

    /** The cache holds `contents` for the logged blocks. */
    ghost predicate CacheHas(contents: seq<Block>)
      reads this, bc
    {
      |contents| == |lh| && forall i :: 0 <= i < |lh| ==> lh[i] < |bc.latest| && bc.latest[lh[i]] == contents[i]
    }

    /** The second half of both copying loops: overwrite one held buffer, write it, release both. */
    method WriteAndRelease(pid: nat, to: nat, from: nat, ghost blocks: set<nat>)
      requires bc.HoldsOnly(pid, {to, from}, blocks) && to != from
      modifies bc
      ensures bc.HoldsOnly(pid, {}, blocks)
      ensures var n, data := old(bc.buf[to].blockno), old(bc.buf[from].data);
                && n < |old(bc.disk)|
                && bc.disk == old(bc.disk)[n := data] && bc.latest == old(bc.latest)[n := data]
                && bc.trace == old(bc.trace) + [bc.disk] && bc.pin == old(bc.pin) - {n}
    {
      var data := bc.buf[from].data;
      assert {to, from} - {from} == {to} && {to} - {to} == {};
      hide *;
      bc.ChangeAndWrite(pid, to, data, {to, from}, blocks);
      bc.BrelseMine(pid, from, {to, from}, blocks);
      bc.BrelseMine(pid, to, {to}, blocks);
    }

    /** One round of `write_log`. */
    method WriteSlot(pid: nat, slot: nat, home: nat, ghost blocks: set<nat>) returns (ok: bool)
      requires bc.HoldsOnly(pid, {}, blocks) && slot < |bc.disk| && home < |bc.disk| && slot != home &&
                slot in blocks && home in blocks
      modifies bc
      ensures !ok ==> bc.disk == old(bc.disk) && bc.trace == old(bc.trace)
      ensures ok ==> bc.HoldsOnly(pid, {}, blocks) && bc.disk == old(bc.disk)[slot := old(bc.latest[home])]
      ensures ok ==> bc.latest == old(bc.latest)[slot := old(bc.latest[home])]
      ensures ok ==> bc.trace == old(bc.trace) + [bc.disk] && bc.pin == old(bc.pin) - {slot}
    {
      var to := bc.BreadMore(pid, slot, {}, blocks);
      if to == None {
        return false;
      }
      var from := bc.BreadMore(pid, home, {} + {to.value}, blocks);
      if from == None {
        return false;
      }
      assert {} + {to.value} + {from.value} == {to.value, from.value};
      WriteAndRelease(pid, to.value, from.value, blocks);
      return true;
    }

    /** One round of `install_trans`. */
    method InstallBlock(pid: nat, slot: nat, home: nat, ghost blocks: set<nat>) returns (ok: bool)
      requires bc.HoldsOnly(pid, {}, blocks) && slot < |bc.disk| && home < |bc.disk| && slot != home &&
                slot in blocks && home in blocks
      modifies bc
      ensures !ok ==> bc.disk == old(bc.disk) && bc.trace == old(bc.trace)
      ensures ok ==> bc.HoldsOnly(pid, {}, blocks) && bc.disk == old(bc.disk)[home := old(bc.latest[slot])]
      ensures ok ==> bc.latest == old(bc.latest)[home := old(bc.latest[slot])]
      ensures ok ==> bc.trace == old(bc.trace) + [bc.disk] && bc.pin == old(bc.pin) - {home}
    {
      var lbuf := bc.BreadMore(pid, slot, {}, blocks);
      if lbuf == None {
        return false;
      }
      var dbuf := bc.BreadMore(pid, home, {} + {lbuf.value}, blocks);
      if dbuf == None {
        return false;
      }
      assert {} + {lbuf.value} + {dbuf.value} == {dbuf.value, lbuf.value};
      WriteAndRelease(pid, dbuf.value, lbuf.value, blocks);
      return true;
    }

    /** `write_log`: copy the modified blocks from the cache to the log. */
    method WriteLog(pid: nat, ghost contents: seq<Block>, ghost blocks: set<nat>) returns (ok: bool, ghost w: nat)
      requires Ready(pid, blocks) && BlocksOk(layout, |bc.disk|, lh) && CacheHas(contents) &&
                forall b :: b in lh ==> b in blocks
      modifies bc
      ensures w <= |lh| && (ok ==> w == |lh|)
      ensures bc.disk == LogDisk(layout, old(bc.disk), contents, w)
      ensures bc.trace == old(bc.trace) + LogDisks(layout, old(bc.disk), contents, w)
      ensures ok ==> Ready(pid, blocks) && SameHome(layout, bc.latest, old(bc.latest)) && bc.pin == old(bc.pin)
    {
      hide bc.HoldsOnly;
      ghost var d := bc.disk;
      var tail := 0;
      while tail < |lh|
        invariant tail <= |lh| && Ready(pid, blocks)
        invariant bc.disk == LogDisk(layout, d, contents, tail)
        invariant bc.trace == old(bc.trace) + LogDisks(layout, d, contents, tail)
        invariant |bc.latest| == |d| && bc.latest == LogDisk(layout, old(bc.latest), contents, tail) &&
                  bc.pin == old(bc.pin)
      {
        LogDiskWhole(layout, old(bc.latest), contents, tail);
        assert bc.latest[lh[tail]] == contents[tail];
        assert layout.start + tail + 1 !in bc.pin;
        ok := WriteSlot(pid, layout.start + tail + 1, lh[tail], blocks);
        if !ok {
          return false, tail;
        }
        tail := tail + 1;
      }
      LogDiskWhole(layout, old(bc.latest), contents, tail);
      return true, tail;
    }

    /** `write_head`: put the in-memory header into the header block, keeping its other words. */
    method WriteHead(pid: nat, ghost blocks: set<nat>) returns (ok: bool)
      requires Ready(pid, blocks) && HeaderFits(lh)
      modifies bc
      ensures !ok ==> bc.disk == old(bc.disk) && bc.trace == old(bc.trace)
      ensures ok ==> Ready(pid, blocks) && bc.disk == HeadDisk(layout, old(bc.disk), lh)
      ensures ok ==> bc.latest == HeadDisk(layout, old(bc.latest), lh)
      ensures ok ==> bc.trace == old(bc.trace) + [bc.disk] && bc.pin == old(bc.pin)
    {
      hide bc.HoldsOnly;
      bc.UnpinnedIsOnDisk(pid, {}, blocks);
      var b := bc.BreadMore(pid, layout.start, {}, blocks);
      if b == None {
        return false;
      }
      var data := bc.buf[b.value].data;
      var head := SetWord(data, 0, |lh|);
      for i := 0 to |lh|
        invariant head == EncodeEntries(data, lh, i)
      {
        head := SetWord(head, i + 1, lh[i]);
      }
      assert layout.start !in bc.pin;
      bc.ChangeAndWrite(pid, b.value, head, {} + {b.value}, blocks);
      bc.BrelseMine(pid, b.value, {} + {b.value}, blocks);
      assert {} + {b.value} - {b.value} == {};
      return true;
    }

    /** `read_head`: take the header from the disk. */
    method ReadHead(pid: nat, ghost blocks: set<nat>) returns (ok: bool)
      requires Ready(pid, blocks) && LogOk(layout, bc.disk)
      modifies bc, this`lh
      ensures bc.disk == old(bc.disk) && bc.trace == old(bc.trace)
      ensures ok ==> Ready(pid, blocks) && bc.latest == old(bc.latest) && bc.pin == old(bc.pin)
      ensures ok ==> lh == HeadBlocks(bc.disk[layout.start])
    {
      hide bc.HoldsOnly;
      bc.UnpinnedIsOnDisk(pid, {}, blocks);
      var b := bc.BreadMore(pid, layout.start, {}, blocks);
      if b == None {
        return false;
      }
      assert layout.start !in bc.pin;
      var data := bc.buf[b.value].data;
      var n := WordAt(data, 0);
      lh := [];
      for i := 0 to n
        modifies this`lh
        invariant lh == HeadBlocks(data)[..i]
      {
        lh := lh + [WordAt(data, i + 1)];
      }
      bc.BrelseMine(pid, b.value, {} + {b.value}, blocks);
      assert {} + {b.value} - {b.value} == {};
      return true;
    }

    /** `install_trans`: copy the logged blocks from the log to their homes. */
    method InstallTrans(pid: nat, ghost blocks: set<nat>) returns (ok: bool, ghost w: nat)
      requires Ready(pid, blocks) && BlocksOk(layout, |bc.disk|, lh) && forall b :: b in lh ==> b in blocks
      modifies bc
      ensures w <= |lh| && (ok ==> w == |lh|)
      ensures bc.disk == InstallDisk(layout, old(bc.disk), lh, w)
      ensures bc.trace == old(bc.trace) + InstallDisks(layout, old(bc.disk), lh, w)
      ensures ok ==> Ready(pid, blocks) && bc.latest == InstallDisk(layout, old(bc.latest), lh, w)
      ensures ok ==> forall b :: b in bc.pin ==> b in old(bc.pin) && b !in lh
    {
      hide bc.HoldsOnly;
      ghost var d := bc.disk;
      var tail := 0;
      while tail < |lh|
        invariant tail <= |lh| && Ready(pid, blocks)
        invariant bc.disk == InstallDisk(layout, d, lh, tail)
        invariant bc.trace == old(bc.trace) + InstallDisks(layout, d, lh, tail)
        invariant bc.latest == InstallDisk(layout, old(bc.latest), lh, tail)
        invariant forall b :: b in bc.pin ==> b in old(bc.pin) && b !in lh[..tail]
      {
        ghost var slot := layout.start + tail + 1;
        bc.UnpinnedIsOnDisk(pid, {}, blocks);
        InstallKeepsLog(layout, d, lh, tail, slot);
        InstallKeepsLog(layout, old(bc.latest), lh, tail, slot);
        ok := InstallBlock(pid, layout.start + tail + 1, lh[tail], blocks);
        if !ok {
          return false, tail;
        }
        tail := tail + 1;
      }
      return true, tail;
    }

    /** `recover_from_log`, at boot, when nothing is in the cache yet. */
    method RecoverFromLog(pid: nat, ghost blocks: set<nat>) returns (ok: bool, ghost w: nat)
      requires Ready(pid, blocks) && LogOk(layout, bc.disk) && bc.pin == map[]
      requires forall b :: b in HeadBlocks(bc.disk[layout.start]) ==> b in blocks
      modifies bc, this`lh
      ensures w <= HeadCount(old(bc.disk)[layout.start]) + 1
      ensures bc.disk == RecoveryDisk(layout, old(bc.disk), w)
      ensures bc.trace == old(bc.trace) + RecoveryDisks(layout, old(bc.disk), w)
      ensures ok ==>
                && bc.disk == Recovered(layout, old(bc.disk)) && lh == [] && Ready(pid, blocks) && bc.pin == map[]
                && bc.latest == bc.disk
    {
      hide bc.HoldsOnly, RecoveryDisk, RecoveryDisks, Recovered, InstallDisk, HeadDisk;
      ghost var d := bc.disk;
      bc.UnpinnedIsOnDisk(pid, {}, blocks);
      RecoveryStartsWithInstalls(layout, d, 0);
      ok := ReadHead(pid, blocks);
      if !ok {
        return false, 0;
      }
      ok, w := InstallTrans(pid, blocks);
      RecoveryStartsWithInstalls(layout, d, w);
      if !ok {
        return;
      }
      RecoveryThenErases(layout, d);
      lh := [];
      ok := WriteHead(pid, blocks);
      if !ok {
        return;
      }
      w := w + 1;
      bc.UnpinnedIsOnDisk(pid, {}, blocks);
    }

    /** `commit`. */
    method Commit(pid: nat, ghost contents: seq<Block>, ghost blocks: set<nat>) returns (ok: bool, ghost w: nat)
      requires Ready(pid, blocks) && LogOk(layout, bc.disk) && BlocksOk(layout, |bc.disk|, lh) && CacheHas(contents)
      requires (forall b :: b in bc.pin ==> b in lh) && forall b :: b in lh ==> b in blocks
      modifies bc, this`lh
      ensures var g := Group(old(lh), contents);
                && w <= 2 * |g.blocks| + 2 && (g.blocks == [] ==> w == 0)
                && bc.disk == CommitDisk(layout, old(bc.disk), g, w)
                && bc.trace == old(bc.trace) + CommitDisks(layout, old(bc.disk), g, w)
      ensures ok ==> (old(lh) != [] ==> w == 2 * |old(lh)| + 2) && lh == [] && Ready(pid, blocks) && bc.pin == map[]
      ensures ok ==> SameHome(layout, bc.disk, old(bc.latest)) && bc.latest == bc.disk
    {
      hide bc.HoldsOnly, CommitDisk, CommitDisks, LogDisk, InstallDisk, HeadDisk, Marked, BlocksOk, LogOk;
      ghost var d, g := bc.disk, Group(lh, contents);
      bc.UnpinnedIsOnDisk(pid, {}, blocks);
      BlocksFit(layout, |d|, lh);
      assert GroupOk(layout, |d|, g);
      CommitStartsWithLogging(layout, d, g, 0);
      w := 0;
      if |lh| > 0 {
        ok, w := WriteLog(pid, contents, blocks);
        CommitStartsWithLogging(layout, d, g, w);
        if !ok {
          return;
        }
        CommitThenMarks(layout, d, g);
        ok := WriteHead(pid, blocks);
        if !ok {
          return;
        }
        ghost var k;
        ok, k := InstallTrans(pid, blocks);
        CommitThenInstalls(layout, d, g, k);
        w := w + 1 + k;
        if !ok {
          return;
        }
        CommitThenErases(layout, d, g);
        lh := [];
        ok := WriteHead(pid, blocks);
        if !ok {
          return;
        }
        w := w + 1;
        CommitCompletes(layout, d, g);
        AppliedIsCurrent(layout, d, old(bc.latest), g);
      }
      bc.UnpinnedIsOnDisk(pid, {}, blocks);
      ok := true;
    }

    // ---------- the critical sections of a file-system call ----------

    /** One round of `begin_op`; false when the caller sleeps and tries again. */
    method BeginOp() returns (admitted: bool)
      requires LogInv()
      modifies this`outstanding, this`ops
      ensures LogInv()
      ensures admitted <==> !committing && |lh| + (old(outstanding) + 1) * 10 <= 30
      ensures admitted ==> outstanding == old(outstanding) + 1 && ops == old(ops) + [{}]
      ensures admitted <==> R.Step(layout, old(View()), R.Begin).Some?
      ensures View() == if admitted then R.Step(layout, old(View()), R.Begin).value else old(View())
    {
      if committing {
        return false;
      }
      if |lh| + (outstanding + 1) * MAXOPBLOCKS > LOGSIZE {
        return false;
      }
      R.StepKeepsDiscipline(layout, View(), R.Begin);
      outstanding := outstanding + 1;
      ops := ops + [{}];
      return true;
    }

    /** The loop of `log_write`: the block's entry in the header, old or new. */
    method RecordBlock(block: nat)
      modifies this`lh
      ensures lh == R.Absorb(old(lh), block) == if block in old(lh) then old(lh) else old(lh) + [block]
    {
      var k := 0;
      while k < |lh| && lh[k] != block
        invariant k <= |lh| && block !in lh[..k]
      {
        k := k + 1;
      }
      if k == |lh| {
        lh := lh + [block];
      } else {
        lh := lh[k := block];
      }
    }

    /** A block put into the header when there is room leaves it in order, with every pinned block in it. */
    static lemma AbsorbKeepsBlocks(l: Layout, n: nat, lh: seq<nat>, block: nat, i: nat, pin: map<nat, nat>)
      requires BlocksOk(l, n, lh) && block < n && !InLog(l, block) && |lh| < Capacity(l) &&
                forall b :: b in pin ==> b in lh
      ensures BlocksOk(l, n, R.Absorb(lh, block)) && forall b :: b in pin[block := i] ==> b in R.Absorb(lh, block)
    {
    }

    /** The step of a write within the budget, when there is room. */
    static lemma WriteStep(l: Layout, s: R.State, op: nat, block: nat)
      requires op < |s.ops| && |s.lh| < Capacity(l)
      ensures R.Disciplined(s) && R.WithinBudget(s, R.Write(op, block)) ==>
                var t := s.(lh := R.Absorb(s.lh, block), ops := s.ops[op := s.ops[op] + {block}]);
                R.Step(l, s, R.Write(op, block)) == Some(t) && R.Disciplined(t)
    {
      if R.Disciplined(s) && R.WithinBudget(s, R.Write(op, block)) {
        R.StepKeepsDiscipline(l, s, R.Write(op, block));
      }
    }

    /** `log_write` of a held buffer by outstanding call `op`; false is a panic. A call that keeps to its budget keeps
        the discipline. */
    method LogWrite(pid: nat, i: nat, ghost op: nat) returns (ok: bool)
      requires LogValid() && bc.Holds(pid, i) && !InLog(layout, bc.buf[i].blockno) && (ops == [] || op < |ops|)
      modifies this`lh, this`ops, bc`buf, bc`touched, bc`latest, bc`pin
      ensures LogValid() && committing == old(committing)
      ensures ok <==> |old(lh)| < LOGSIZE && |old(lh)| < layout.size - 1 && old(ops) != []
      ensures !ok ==> unchanged(this) && unchanged(bc)
      ensures ok ==> var b := old(bc.buf[i]);
                && lh == (if b.blockno in old(lh) then old(lh) else old(lh) + [b.blockno])
                && lh == R.Absorb(old(lh), b.blockno) && ops == old(ops)[op := old(ops[op]) + {b.blockno}]
                && b.blockno < |old(bc.latest)| && bc.latest == old(bc.latest)[b.blockno := b.data]
                && bc.pin == old(bc.pin)[b.blockno := i] && bc.buf == old(bc.buf)[i := b.(dirty := true)]
      ensures var a := R.Write(op, old(bc.buf[i].blockno));
                old(LogInv()) && R.WithinBudget(old(View()), a) ==>
                  var step := R.Step(layout, old(View()), a);
                  LogInv() && (ok <==> step.Some?) && View() == if ok then step.value else old(View())
    {
      if |lh| >= LOGSIZE || |lh| >= layout.size - 1 {
        return false;
      }
      if outstanding < 1 {
        return false;
      }
      ghost var block := bc.buf[i].blockno;
      AbsorbKeepsBlocks(layout, |bc.disk|, lh, block, i, bc.pin) by { bc.HeldIsOnDisk(pid, i); }
      WriteStep(layout, View(), op, block);
      hide R.Disciplined, LogOk, BlocksOk, R.Absorb, R.Step, R.WithinBudget;
      RecordBlock(bc.buf[i].blockno);
      ops := ops[op := ops[op] + {block}];
      bc.MarkDirty(pid, i);
      return true;
    }

    /** The first critical section of `end_op`; `ok` is false on its panic. */
    method EndOp(ghost op: nat) returns (ok: bool, doCommit: bool)
      requires LogInv() && op < |ops|
      modifies this`outstanding, this`ops, this`committing
      ensures LogInv() && ok
      ensures R.Step(layout, old(View()), R.End(op)) == Some(View())
      ensures doCommit == committing == (old(outstanding) == 1) && outstanding == old(outstanding) - 1
    {
      R.StepKeepsDiscipline(layout, View(), R.End(op));
      outstanding := outstanding - 1;
      ops := R.Without(ops, op);
      if committing {
        return false, false;
      }
      doCommit := outstanding == 0;
      if doCommit {
        committing := true;
      }
      ok := true;
    }

    /** The rest of `end_op` for the last call: commit what was logged, with the contents then in the cache. */
    method FinishOp(pid: nat, ghost blocks: set<nat>) returns (ok: bool, ghost w: nat)
      requires LogInv() && committing && bc.HoldsOnly(pid, {}, blocks)
      requires (forall n: nat :: InLog(layout, n) ==> n in blocks) && forall b :: b in lh ==> b in blocks
      modifies bc, this`lh, this`committing
      ensures forall b :: b in old(lh) ==> b < |old(bc.latest)|
      ensures var g := Group(old(lh), ContentsOf(old(bc.latest), old(lh)));
                && w <= 2 * |g.blocks| + 2
                && bc.disk == CommitDisk(layout, old(bc.disk), g, w)
                && bc.trace == old(bc.trace) + CommitDisks(layout, old(bc.disk), g, w)
      ensures ok ==> LogInv() && R.Step(layout, old(View()), R.Committed) == Some(View()) && lh == [] && !committing
      ensures ok ==> SameHome(layout, bc.disk, old(bc.latest)) && bc.latest == bc.disk && bc.pin == map[]
    {
      bc.UnpinnedIsOnDisk(pid, {}, blocks);
      ghost var contents := ContentsOf(bc.latest, lh);
      ok, w := Commit(pid, contents, blocks);
      if ok {
        committing := false;
      }
    }
  }
}
