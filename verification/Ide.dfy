/** The interrupt-driven disk driver, against the disk in memory as its specification.

A buffer is an index. `iderw` runs in two pieces under the driver's lock: it queues the buffer and starts the
controller if that is idle, then sleeps until the flags say the request is done. The controller takes the data of a
write when it is started, and completes a request without error when it interrupts. NBUF stands for the null pointer.
 */
module Ide {
  import opened Blocks

  /** The buffers and the disk. */
  datatype Bufs = Bufs(valid: seq<bool>, dirty: seq<bool>, blockno: seq<nat>, data: seq<Block>, disk: seq<Block>)

  predicate Shape(s: Bufs) {
    |s.valid| == |s.dirty| == |s.blockno| == |s.data|
  }

  /** Buffer `b` is one, for a block of the disk. */
  predicate IsBuf(s: Bufs, b: nat) {
    Shape(s) && b < |s.valid| && s.blockno[b] < |s.disk|
  }

  predicate IsDone(s: Bufs, b: nat)
    requires IsBuf(s, b)
  {
    s.valid[b] && !s.dirty[b]
  }

  /** `iderw` of the memory disk: a dirty buffer is written, any other is read. */
  function MemRw(s: Bufs, b: nat): (r: Bufs)
    requires IsBuf(s, b)
    ensures Shape(r) && r.blockno == s.blockno && |r.disk| == |s.disk| && |r.valid| == |s.valid|
  {
    if s.dirty[b] then s.(dirty := s.dirty[b := false], disk := s.disk[s.blockno[b] := s.data[b]], valid :=
        s.valid[b := true])
    else s.(data := s.data[b := s.disk[s.blockno[b]]], valid := s.valid[b := true])
  }

  /** The holder of a buffer changes it. */
  function SetBuf(s: Bufs, b: nat, valid: bool, dirty: bool, data: Block): (r: Bufs)
    requires IsBuf(s, b)
    ensures Shape(r) && r.blockno == s.blockno && r.disk == s.disk && |r.valid| == |s.valid|
  {
    s.(valid := s.valid[b := valid], dirty := s.dirty[b := dirty], data := s.data[b := data])
  }

  predicate AllBufs(s: Bufs, q: seq<nat>) {
    forall k: nat :: k < |q| ==> IsBuf(s, q[k])
  }

  /** The memory disk serving requests in order. */
  function MemRun(s: Bufs, q: seq<nat>): (r: Bufs)
    requires Shape(s) && AllBufs(s, q)
    ensures Shape(r) && r.blockno == s.blockno && |r.disk| == |s.disk| && |r.valid| == |s.valid|
    decreases |q|
  {
    if q == [] then s else MemRun(MemRw(s, q[0]), q[1..])
  }

  // ----- the driver as a machine

  /** What the controller was told: the block, and the data if it is to be written. */
  datatype Request = Request(block: nat, write: bool, payload: Block)

  datatype Driver = Driver(s: Bufs, queue: seq<nat>, ctl: Option<Request>)

  datatype Event = Call(b: nat) | Interrupt | Change(b: nat, valid: bool, dirty: bool, data: Block)

  function RequestFor(s: Bufs, b: nat): Request
    requires IsBuf(s, b)
  {
    Request(s.blockno[b], s.dirty[b], s.data[b])
  }

  /** The queue holds distinct buffers with something to do, and the controller is working on its head. */
  ghost predicate Ok(d: Driver) {
    && Shape(d.s) && AllBufs(d.s, d.queue)
    && (forall j: nat, k: nat :: j < k < |d.queue| ==> d.queue[j] != d.queue[k])
    && (forall k: nat :: k < |d.queue| ==> !IsDone(d.s, d.queue[k]))
    && d.ctl == if d.queue == [] then None else Some(RequestFor(d.s, d.queue[0]))
  }

  /** A call needs a buffer with something to do that its caller holds, so that it is not queued; so does a change. */
  predicate Legal(d: Driver, e: Event) {
    match e
    case Call(b) => IsBuf(d.s, b) && b !in d.queue && !IsDone(d.s, b)
    case Interrupt => true
    case Change(b, _, _, _) => IsBuf(d.s, b) && b !in d.queue
  }

  function Enqueued(d: Driver, b: nat): Driver
    requires IsBuf(d.s, b)
  {
    Driver(d.s, d.queue + [b], if d.queue == [] then Some(RequestFor(d.s, b)) else d.ctl)
  }

  /** The controller completes its request and interrupts: the head of the queue is served, and the next one started. An
  interrupt with nothing queued is ignored. */
  function Served(d: Driver): Driver
    requires AllBufs(d.s, d.queue) && (d.queue != [] ==> d.ctl.Some? && d.ctl.value.block < |d.s.disk|)
  {
    if d.queue == [] then d
    else
      var b, rest, r := d.queue[0], d.queue[1..], d.ctl.value;
      var disk := if r.write then d.s.disk[r.block := r.payload] else d.s.disk;
      var data := if d.s.dirty[b] then d.s.data else d.s.data[b := disk[r.block]];
      var s := d.s.(disk := disk, data := data, valid := d.s.valid[b := true], dirty := d.s.dirty[b := false]);
      Driver(s, rest, if rest == [] then None else Some(RequestFor(s, rest[0])))
  }

  ghost function Step(d: Driver, e: Event): Driver
    requires Ok(d) && Legal(d, e)
  {
    match e
    case Call(b) => Enqueued(d, b)
    case Interrupt => Served(d)
    case Change(b, valid, dirty, data) => d.(s := SetBuf(d.s, b, valid, dirty, data))
  }

  /** The same events on the memory disk: a call is served at once. */
  function SyncStep(s: Bufs, e: Event): Bufs
    requires e.Call? || e.Change? ==> IsBuf(s, e.b)
  {
    match e
    case Call(b) => MemRw(s, b)
    case Interrupt => s
    case Change(b, valid, dirty, data) => SetBuf(s, b, valid, dirty, data)
  }

  /** Serving the head does to buffers and disk just what the memory disk does. */
  lemma ServedIsMemRw(d: Driver)
    requires Ok(d) && d.queue != []
    ensures Served(d).s == MemRw(d.s, d.queue[0])
  {
    var b := d.queue[0];
    assert IsBuf(d.s, b);
    var s, r := Served(d).s, MemRw(d.s, b);
    assert s.data == r.data && s.dirty == r.dirty && s.disk == r.disk;
  }

  lemma StepKeepsOk(d: Driver, e: Event)
    requires Ok(d) && Legal(d, e)
    ensures Ok(Step(d, e))
  {
    var n := Step(d, e);
    match e
    case Call(b) =>
      forall j: nat, k: nat | j < k < |n.queue|
        ensures n.queue[j] != n.queue[k]
      {
        assert d.queue[j] in d.queue;
      }
    case Interrupt =>
      if d.queue != [] {
        assert IsBuf(d.s, d.queue[0]);
        forall k: nat | k < |n.queue|
          ensures IsBuf(n.s, n.queue[k]) && !IsDone(n.s, n.queue[k])
        {
          assert n.queue[k] == d.queue[k + 1];
        }
      }
    case Change(b, _, _, _) =>
      forall k: nat | k < |d.queue|
        ensures IsBuf(n.s, d.queue[k]) && !IsDone(n.s, d.queue[k])
      {
        assert d.queue[k] in d.queue;
      }
      if d.queue != [] {
        assert d.queue[0] in d.queue && IsBuf(d.s, d.queue[0]);
      }
  }

  // ----- refinement

  lemma {:induction false} RunAppend(s: Bufs, q: seq<nat>, b: nat)
    requires Shape(s) && AllBufs(s, q) && IsBuf(s, b)
    ensures AllBufs(s, q + [b]) && MemRun(s, q + [b]) == MemRw(MemRun(s, q), b)
    decreases |q|
  {
    if q == [] {
      assert q + [b] == [b];
      assert MemRun(MemRw(s, b), []) == MemRw(s, b);
    } else {
      assert IsBuf(s, q[0]);
      RunAppend(MemRw(s, q[0]), q[1..], b);
      assert (q + [b])[1..] == q[1..] + [b];
      forall k: nat | k < |q + [b]|
        ensures IsBuf(s, (q + [b])[k])
      {
      }
    }
  }

  /** A change to a buffer that is not queued passes through the requests that are. */
  lemma {:induction false} ChangePasses(s: Bufs, q: seq<nat>, b: nat, valid: bool, dirty: bool, data: Block)
    requires Shape(s) && AllBufs(s, q) && IsBuf(s, b) && b !in q
    ensures AllBufs(SetBuf(s, b, valid, dirty, data), q)
    ensures MemRun(SetBuf(s, b, valid, dirty, data), q) == SetBuf(MemRun(s, q), b, valid, dirty, data)
    decreases |q|
  {
    var t := SetBuf(s, b, valid, dirty, data);
    forall k: nat | k < |q|
      ensures IsBuf(t, q[k])
    {
      assert IsBuf(s, q[k]);
    }
    if q != [] {
      var c := q[0];
      assert IsBuf(s, c) && c != b;
      ChangePasses(MemRw(s, c), q[1..], b, valid, dirty, data);
      var l, r := MemRw(t, c), SetBuf(MemRw(s, c), b, valid, dirty, data);
      assert l.valid == r.valid && l.dirty == r.dirty && l.data == r.data && l.disk == r.disk;
    }
  }

  lemma {:induction false} RunKeepsOthers(s: Bufs, q: seq<nat>, b: nat)
    requires Shape(s) && AllBufs(s, q) && IsBuf(s, b) && b !in q
    ensures var r := MemRun(s, q); r.valid[b] == s.valid[b] && r.dirty[b] == s.dirty[b] && r.data[b] == s.data[b]
    decreases |q|
  {
    if q != [] {
      assert IsBuf(s, q[0]);
      RunKeepsOthers(MemRw(s, q[0]), q[1..], b);
    }
  }

  /** What the driver still owes is what separates it from the memory disk. */
  ghost predicate Refines(d: Driver, sync: Bufs) {
    Ok(d) && MemRun(d.s, d.queue) == sync
  }

  lemma StepRefines(d: Driver, sync: Bufs, e: Event)
    requires Refines(d, sync) && Legal(d, e)
    ensures e.Call? || e.Change? ==> IsBuf(sync, e.b)
    ensures e.Call? ==> !IsDone(sync, e.b)
    ensures Refines(Step(d, e), SyncStep(sync, e))
  {
    StepKeepsOk(d, e);
    match e
    case Call(b) =>
      RunAppend(d.s, d.queue, b);
      RunKeepsOthers(d.s, d.queue, b);
    case Interrupt =>
      if d.queue != [] {
        ServedIsMemRw(d);
        assert IsBuf(d.s, d.queue[0]);
      }
    case Change(b, valid, dirty, data) =>
      ChangePasses(d.s, d.queue, b, valid, dirty, data);
  }

  /** Event `k` of a run is legal where it happens, and the driver does its step. */
  ghost predicate RunsAt(ds: seq<Driver>, es: seq<Event>, k: nat) {
    k < |es| && k + 1 < |ds| ==> Ok(ds[k]) && Legal(ds[k], es[k]) && ds[k + 1] == Step(ds[k], es[k])
  }

  ghost predicate IsRun(ds: seq<Driver>, es: seq<Event>) {
    |ds| == |es| + 1 && Ok(ds[0]) && ds[0].queue == [] && forall k: nat :: RunsAt(ds, es, k)
  }

  /** The memory disk does event `k`, and would not refuse it. */
  predicate FollowsAt(ss: seq<Bufs>, es: seq<Event>, k: nat) {
    k < |es| && k + 1 < |ss| ==>
      && (es[k].Call? || es[k].Change? ==> IsBuf(ss[k], es[k].b)) && (es[k].Call? ==> !IsDone(ss[k], es[k].b))
      && ss[k + 1] == SyncStep(ss[k], es[k])
  }

  ghost predicate Follows(ss: seq<Bufs>, es: seq<Event>) {
    |ss| == |es| + 1 && forall k: nat :: FollowsAt(ss, es, k)
  }

  /** What the two have in common after a step: buffers that are not queued, and with an empty queue everything. */
  ghost predicate Agree(d: Driver, sync: Bufs) {
    && Refines(d, sync)
    && (forall b: nat :: IsBuf(d.s, b) && b !in d.queue ==> SameBuf(d.s, sync, b))
    && (d.queue == [] ==> d.s == sync)
  }

  lemma RefinesAgree(d: Driver, sync: Bufs)
    requires Refines(d, sync)
    ensures Agree(d, sync)
  {
    forall b: nat | IsBuf(d.s, b) && b !in d.queue
      ensures SameBuf(d.s, sync, b)
    {
      RunKeepsOthers(d.s, d.queue, b);
    }
  }

  /** For every run, the memory disk run on the same calls and changes, which it never refuses, differs from the
  driver by the queued requests only. */
  lemma RunRefines(ds: seq<Driver>, es: seq<Event>) returns (ss: seq<Bufs>)
    requires IsRun(ds, es)
    ensures Follows(ss, es) && ss[0] == ds[0].s
    ensures forall k: nat :: k < |ds| ==> Agree(ds[k], ss[k])
  {
    assert Refines(ds[0], ds[0].s);
    hide Step, SyncStep, Ok, Refines, Legal, Agree;
    RefinesAgree(ds[0], ds[0].s);
    ss := [ds[0].s];
    for n := 0 to |es|
      invariant |ss| == n + 1 && ss[0] == ds[0].s && Refines(ds[n], ss[n])
      invariant forall k: nat :: FollowsAt(ss, es, k)
      invariant forall k: nat :: k <= n ==> Agree(ds[k], ss[k])
    {
      ghost var before := ss;
      assert RunsAt(ds, es, n);
      StepRefines(ds[n], ss[n], es[n]);
      RefinesAgree(ds[n + 1], SyncStep(ss[n], es[n]));
      ss := ss + [SyncStep(ss[n], es[n])];
      forall k: nat
        ensures FollowsAt(ss, es, k)
      {
        assert FollowsAt(before, es, k);
      }
    }
  }

  // ----- a read gives what was written

  /** Event `k` writes block `blk`: it is a call for a dirty buffer of that block. */
  predicate Writes(ss: seq<Bufs>, es: seq<Event>, k: nat, blk: nat) {
    && k < |es| && k < |ss| && es[k].Call? && IsBuf(ss[k], es[k].b)
    && ss[k].dirty[es[k].b] && ss[k].blockno[es[k].b] == blk
  }

  /** Event `k` is the holder of the buffer calling or changing it. */
  predicate Touches(es: seq<Event>, k: nat, b: nat) {
    k < |es| && (es[k].Call? || es[k].Change?) && es[k].b == b
  }

  lemma {:induction false} BlockStays(ss: seq<Bufs>, es: seq<Event>, i: nat, j: nat, blk: nat)
    requires Follows(ss, es) && Shape(ss[0]) && i <= j <= |es|
    requires forall k: nat :: i <= k < j ==> !Writes(ss, es, k, blk)
    ensures Shape(ss[i]) && Shape(ss[j]) && ss[j].blockno == ss[i].blockno == ss[0].blockno
    ensures |ss[i].disk| == |ss[j].disk| && (blk < |ss[i].disk| ==> ss[j].disk[blk] == ss[i].disk[blk])
    decreases j, i
  {
    if i < j {
      assert FollowsAt(ss, es, j - 1) && !Writes(ss, es, j - 1, blk);
      BlockStays(ss, es, i, j - 1, blk);
    } else if j > 0 {
      assert FollowsAt(ss, es, j - 1);
      BlockStays(ss, es, j - 1, j - 1, blk);
    }
  }

  lemma {:induction false} BufStays(ss: seq<Bufs>, es: seq<Event>, i: nat, j: nat, b: nat)
    requires Follows(ss, es) && i <= j <= |es| && IsBuf(ss[i], b)
    requires forall k: nat :: i <= k < j ==> !Touches(es, k, b)
    ensures IsBuf(ss[j], b) && ss[j].data[b] == ss[i].data[b]
    decreases j
  {
    if i < j {
      BufStays(ss, es, i, j - 1, b);
      assert FollowsAt(ss, es, j - 1) && !Touches(es, j - 1, b);
    }
  }

  /** On the memory disk a block that was written and then read gives the data back, whatever else goes on. */
  lemma ReadGivesLastWritten(ss: seq<Bufs>, es: seq<Event>, i: nat, j: nat, n: nat, blk: nat)
    requires Follows(ss, es) && Shape(ss[0]) && i < j < n <= |es|
    requires Writes(ss, es, i, blk) && forall k: nat :: i < k < j ==> !Writes(ss, es, k, blk)
    requires es[j].Call? && IsBuf(ss[j], es[j].b) && !ss[j].dirty[es[j].b] && ss[j].blockno[es[j].b] == blk
    requires forall k: nat :: j < k < n ==> !Touches(es, k, es[j].b)
    ensures IsBuf(ss[n], es[j].b) && ss[n].data[es[j].b] == ss[i].data[es[i].b]
  {
    assert FollowsAt(ss, es, i) && FollowsAt(ss, es, j);
    BlockStays(ss, es, i + 1, j, blk);
    BufStays(ss, es, j + 1, n, es[j].b);
  }

  /** And the buffer it was written from keeps it. */
  lemma WriterKeepsData(ss: seq<Bufs>, es: seq<Event>, i: nat, n: nat, blk: nat)
    requires Follows(ss, es) && i < n <= |es| && Writes(ss, es, i, blk)
    requires forall k: nat :: i < k < n ==> !Touches(es, k, es[i].b)
    ensures IsBuf(ss[n], es[i].b) && ss[n].data[es[i].b] == ss[i].data[es[i].b]
  {
    assert FollowsAt(ss, es, i);
    BufStays(ss, es, i + 1, n, es[i].b);
  }

  /** The state of the driver at event `k`, as `Writes` looks at it. */
  function Seen(ds: seq<Driver>): (ss: seq<Bufs>)
    ensures |ss| == |ds| && forall k: nat :: k < |ds| ==> ss[k] == ds[k].s
  {
    seq(|ds|, k requires 0 <= k < |ds| => ds[k].s)
  }

  /** The same of the driver, for every interleaving of calls, changes and interrupts: once its request is off the
  queue, a buffer that was read has the data of the last call that wrote its block, served or not when the read was
  asked for. */
  lemma DriverReadGivesLastWritten(ds: seq<Driver>, es: seq<Event>, i: nat, j: nat, n: nat, blk: nat)
    requires IsRun(ds, es) && i < j < n <= |es|
    requires Writes(Seen(ds), es, i, blk) && forall k: nat :: i < k < j ==> !Writes(Seen(ds), es, k, blk)
    requires es[j].Call? && IsBuf(ds[j].s, es[j].b) && !ds[j].s.dirty[es[j].b] && ds[j].s.blockno[es[j].b] == blk
    requires es[j].b !in ds[n].queue && forall k: nat :: j < k < n ==> !Touches(es, k, es[j].b)
    ensures IsBuf(ds[n].s, es[j].b) && ds[n].s.data[es[j].b] == ds[i].s.data[es[i].b]
    // and so has the buffer it was written from, once that is off the queue and was left alone
    ensures es[i].b !in ds[n].queue && (forall k: nat :: i < k < n ==> !Touches(es, k, es[i].b)) ==>
              IsBuf(ds[n].s, es[i].b) && ds[n].s.data[es[i].b] == ds[i].s.data[es[i].b]
  {
    var ss := RunRefines(ds, es);
    forall k: nat | k < |es|
      ensures Writes(ss, es, k, blk) <==> Writes(Seen(ds), es, k, blk)
      ensures es[k].Call? ==> IsBuf(ds[k].s, es[k].b) && SameBuf(ds[k].s, ss[k], es[k].b)
      ensures ss[k].blockno == ds[k].s.blockno
    {
      assert RunsAt(ds, es, k);
    }
    ReadGivesLastWritten(ss, es, i, j, n, blk);
    if es[i].b !in ds[n].queue && forall k: nat :: i < k < n ==> !Touches(es, k, es[i].b) {
      WriterKeepsData(ss, es, i, n, blk);
    }
  }

  predicate SameBuf(s: Bufs, t: Bufs, b: nat)
    requires Shape(s) && b < |s.valid|
  {
    Shape(t) && b < |t.valid| && s.valid[b] == t.valid[b] && s.dirty[b] == t.dirty[b] && s.data[b] == t.data[b]
  }

  /** The wait of `iderw` ends when the request was served, and not before. */
  lemma WaitEndsWhenServed(d: Driver, e: Event, b: nat)
    requires Ok(d) && Legal(d, e) && b in d.queue
    ensures IsBuf(d.s, b) && !IsDone(d.s, b)
    ensures var n := Step(d, e);
      && IsBuf(n.s, b)
      && (b in n.queue <==> !(e == Interrupt && d.queue[0] == b))
      && (IsDone(n.s, b) <==> b !in n.queue)
  {
    StepKeepsOk(d, e);
    var k: nat :| k < |d.queue| && d.queue[k] == b;
    var n := Step(d, e);
    if e == Interrupt {
      if k > 0 {
        assert n.queue[k - 1] == b;
      }
    } else if e.Call? {
      assert n.queue[k] == b;
    }
  }

  // ----- the driver in place

  class IdeDriver {
    const NBUF: nat
    var idequeue: nat
    var qnext: seq<nat>
    var s: Bufs
    var ctl: Option<Request>
    ghost var queue: seq<nat>

    ghost function Now(): Driver
      reads this
    {
      Driver(s, queue, ctl)
    }

    /** The links spell the queue, ending in null. */
    ghost predicate Linked()
      reads this
    {
      && |qnext| == |s.valid| == NBUF
      && idequeue == (if queue == [] then NBUF else queue[0])
      && forall k: nat :: LinkAt(queue, qnext, k)
    }

    predicate LinkAt(q: seq<nat>, next: seq<nat>, k: nat) {
      k < |q| ==> q[k] < |next| && q[k] < NBUF && next[q[k]] == if k + 1 < |q| then q[k + 1] else NBUF
    }

    ghost predicate Valid()
      reads this
    {
      Ok(Now()) && Linked()
    }

    /** `idestart` tells the controller; false is its panic for a block past the disk. */
    method Idestart(b: nat) returns (ok: bool)
      requires Shape(s) && b < |s.valid|
      modifies `ctl
      ensures ok <==> s.blockno[b] < |s.disk|
      ensures ctl == if ok then Some(RequestFor(s, b)) else old(ctl)
    {
      if s.blockno[b] >= |s.disk| {
        return false;
      }
      ctl := Some(Request(s.blockno[b], s.dirty[b], s.data[b]));
      return true;
    }

    /** `iderw` up to its wait: the buffer goes to the end of the queue. False is a panic: there is nothing to do. The
    caller holds the buffer, so it is not queued. */
    method Iderw(b: nat) returns (ok: bool)
      requires Valid() && IsBuf(s, b) && b !in queue
      modifies `idequeue, `qnext, `ctl, `queue
      ensures ok <==> !IsDone(s, b)
      ensures !ok ==> unchanged(this)
      ensures ok ==> Valid() && Legal(old(Now()), Call(b)) && Now() == Step(old(Now()), Call(b))
    {
      if s.valid[b] && !s.dirty[b] {
        return false;
      }
      ghost var d := Now();
      StepKeepsOk(d, Call(b));
      qnext := qnext[b := NBUF];
      if idequeue == NBUF {
        idequeue := b;
      } else {
        var pp := idequeue;
        ghost var k: nat := 0;
        assert queue[0] in queue;
        assert LinkAt(queue, old(qnext), k);
        while qnext[pp] != NBUF
          invariant k < |queue| && pp == queue[k] != b && pp < |qnext|
          invariant qnext == old(qnext)[b := NBUF] && LinkAt(queue, old(qnext), k)
          decreases |queue| - k
        {
          assert queue[k + 1] in queue;
          pp := qnext[pp];
          k := k + 1;
          assert LinkAt(queue, old(qnext), k);
        }
        assert k == |queue| - 1;
        qnext := qnext[pp := b];
      }
      queue := queue + [b];
      forall j: nat
        ensures LinkAt(queue, qnext, j)
      {
        assert LinkAt(d.queue, old(qnext), j);
        assert j < |d.queue| ==> d.queue[j] in d.queue;
      }
      ok := true;
      if idequeue == b {
        ok := Idestart(b);
      }
    }

    /** `ideintr`, with the completion that raised it: the head of the queue is served as the memory disk would. */
    method Ideintr()
      requires Valid()
      modifies `idequeue, `s, `ctl, `queue
      ensures Valid() && Now() == Step(old(Now()), Interrupt)
      ensures old(queue) != [] ==> s == MemRw(old(s), old(queue)[0]) && queue == old(queue)[1..]
    {
      ghost var d := Now();
      StepKeepsOk(d, Interrupt);
      if idequeue == NBUF {
        return;
      }
      ServedIsMemRw(d);
      var b := idequeue;
      assert IsBuf(s, b);
      var r := ctl.value;
      if r.write {
        s := s.(disk := s.disk[r.block := r.payload]);
      }
      assert LinkAt(queue, qnext, 0);
      idequeue := qnext[b];
      if !s.dirty[b] {
        s := s.(data := s.data[b := s.disk[r.block]]);
      }
      s := s.(valid := s.valid[b := true]);
      s := s.(dirty := s.dirty[b := false]);
      queue := queue[1..];
      ctl := None;
      if idequeue != NBUF {
        var ok := Idestart(idequeue);
        assert ok;
      }
      forall k: nat
        ensures LinkAt(queue, qnext, k)
      {
        assert LinkAt(d.queue, qnext, k + 1);
      }
    }
  }
}
