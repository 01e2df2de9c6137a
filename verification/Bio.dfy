/** The buffer cache: `binit`, `bget`, `bread`, `bwrite` and `brelse`, over the memory disk of memide.c.

Buffers are the elements of the static array `bcache.buf`, so a pointer to a buffer is its index; `HEAD` stands for
`bcache.head`. A process that calls `bread` runs three stretches of code between which others may run: the search under
`bcache.lock` (`Get`), taking the buffer's sleep lock (`Lock`) and reading the disk (`Fill`). Leaving a buffer takes two
(`Unlock`, `Unref`). Each is a method here that keeps `Valid`, so `Valid` holds in every interleaving.
 */
module Bio {
  import opened Blocks

  const NBUF := 30
  const HEAD := NBUF
  const ROOTDEV := 1

  datatype Buf = Buf(valid: bool, dirty: bool, dev: nat, blockno: nat, holder: Option<nat>, refcnt: nat, data: Block)

  // ---------- the doubly linked list of all buffers ----------

  /** The buffers in list order between two mentions of the list head. */
  ghost function Ring(order: seq<nat>): seq<nat> {
    [HEAD] + order + [HEAD]
  }

  ghost predicate LinkAt(next: seq<nat>, prev: seq<nat>, ring: seq<nat>, k: nat)
    requires |next| == |prev| == NBUF + 1 && k + 1 < |ring|
    requires ring[k] <= NBUF && ring[k+1] <= NBUF
  {
    next[ring[k]] == ring[k+1] && prev[ring[k+1]] == ring[k]
  }

  ghost predicate Distinct(order: seq<nat>) {
    && (forall k :: 0 <= k < |order| ==> order[k] < NBUF)
    && (forall j, k :: 0 <= j < k < |order| ==> order[j] != order[k])
  }

  /** Walking `next` from the head visits exactly `order`, and `prev` walks back. */
  ghost predicate IsRing(next: seq<nat>, prev: seq<nat>, order: seq<nat>) {
    && |next| == |prev| == NBUF + 1
    && (forall i :: 0 <= i <= NBUF ==> next[i] <= NBUF && prev[i] <= NBUF)
    && Distinct(order)
    && forall k: nat :: k <= |order| ==> LinkAt(next, prev, Ring(order), k)
  }

  /** `order` names every buffer once and `pos` says where. */
  ghost predicate IsPermutation(order: seq<nat>, pos: seq<nat>) {
    && |order| == |pos| == NBUF
    && (forall i :: 0 <= i < NBUF ==> pos[i] < NBUF && order[pos[i]] == i)
    && (forall k :: 0 <= k < NBUF ==> order[k] < NBUF && pos[order[k]] == k)
  }

  lemma UnlinkKeepsRing(next: seq<nat>, prev: seq<nat>, order: seq<nat>, j: nat)
    requires IsRing(next, prev, order) && j < |order|
    ensures var b := order[j];
      next[b] != b && IsRing(next[prev[b] := next[b]], prev[next[b] := prev[b]], order[..j] + order[j+1..])
  {
    var b, ring, rest := order[j], Ring(order), order[..j] + order[j+1..];
    assert LinkAt(next, prev, ring, j) && LinkAt(next, prev, ring, j + 1) && ring[j+1] == b;
    var next': seq<nat>, prev': seq<nat> := next[prev[b] := next[b]], prev[next[b] := prev[b]];
    forall k: nat | k <= |rest|
      ensures LinkAt(next', prev', Ring(rest), k)
    {
      if k < j {
        assert LinkAt(next, prev, ring, k);
      } else if k > j {
        assert LinkAt(next, prev, ring, k + 1);
      }
    }
  }

  lemma PushFrontKeepsRing(next: seq<nat>, prev: seq<nat>, order: seq<nat>, b: nat)
    requires IsRing(next, prev, order) && b < NBUF && b !in order
    ensures IsRing(next[b := next[HEAD]][HEAD := b], prev[b := HEAD][next[HEAD] := b], [b] + order)
  {
    var ring, ring' := Ring(order), Ring([b] + order);
    assert LinkAt(next, prev, ring, 0);
    var next': seq<nat>, prev': seq<nat> := next[b := next[HEAD]][HEAD := b], prev[b := HEAD][next[HEAD] := b];
    forall k: nat | k <= |[b] + order|
      ensures LinkAt(next', prev', ring', k)
    {
      if k > 0 {
        assert LinkAt(next, prev, ring, k - 1);
      }
    }
  }

  /** The list order after the buffer at place `j` has been moved to the front. */
  ghost function MovedToFront(order: seq<nat>, j: nat): (r: seq<nat>)
    requires j < |order|
    ensures |r| == |order| && multiset(r) == multiset(order)
  {
    assert order == order[..j] + [order[j]] + order[j+1..];
    [order[j]] + (order[..j] + order[j+1..])
  }

  /** Buffer `c` comes before buffer `d` in the list. */
  ghost predicate Before(order: seq<nat>, c: nat, d: nat) {
    exists j: nat, k: nat :: j < k < |order| && order[j] == c && order[k] == d
  }

  lemma FrontThenOthers(order: seq<nat>, j: nat, c: nat, d: nat)
    requires j < |order| && d != order[j]
    ensures c == order[j] && d in order ==> Before(MovedToFront(order, j), c, d)
    ensures Before(order, c, d) ==> Before(MovedToFront(order, j), c, d)
  {
    var r := MovedToFront(order, j);
    forall k: nat | k < |order| && k != j
      ensures r[if k < j then k + 1 else k] == order[k] && r[0] == order[j]
    {
    }
    if d in order {
      var k: nat :| k < |order| && order[k] == d;
      assert r[if k < j then k + 1 else k] == d;
    }
    if Before(order, c, d) {
      var k: nat, l: nat :| k < l < |order| && order[k] == c && order[l] == d;
      assert r[if l < j then l + 1 else l] == d;
      assert r[if k < j then k + 1 else if k == j then 0 else k] == c;
    }
  }

  /** Release `k` moves buffer `bs[k]` to the front of the list. */
  ghost predicate MovesAt(orders: seq<seq<nat>>, bs: seq<nat>, k: nat) {
    k < |bs| && k + 1 < |orders| ==>
      exists j: nat :: j < |orders[k]| && orders[k][j] == bs[k] && orders[k + 1] == MovedToFront(orders[k], j)
  }

  /** The list is in order of use: after any run of releases a buffer is in front of all that were last released before
      it. */
  lemma {:induction false} LastReleasedIsInFront(orders: seq<seq<nat>>, bs: seq<nat>, i: nat, n: nat, d: nat)
    requires i < n <= |bs| && |orders| == |bs| + 1 && forall k: nat :: MovesAt(orders, bs, k)
    requires d in orders[i] && forall k: nat :: i <= k < n ==> bs[k] != d
    ensures Before(orders[n], bs[i], d)
  {
    hide MovedToFront, Before;
    assert MovesAt(orders, bs, n - 1);
    var j: nat :| j < |orders[n - 1]| && orders[n - 1][j] == bs[n - 1] &&
      orders[n] == MovedToFront(orders[n - 1], j);
    FrontThenOthers(orders[n - 1], j, bs[i], d);
    if i + 1 < n {
      LastReleasedIsInFront(orders, bs, i, n - 1, d);
    }
  }

  lemma MoveToFrontKeepsPermutation(order: seq<nat>, pos: seq<nat>, b: nat) returns (pos': seq<nat>)
    requires IsPermutation(order, pos) && b < NBUF
    ensures IsPermutation(MovedToFront(order, pos[b]), pos')
  {
    var j := pos[b];
    pos' := seq(NBUF, i requires 0 <= i < NBUF => if i == b then 0 else if pos[i] < j then pos[i] + 1 else pos[i]);
  }

  // ---------- the cache ----------

  /** What holds of buffer `i` on its own: its users are counted, the holder is one of them, valid contents that nobody
      is changing are the latest of their block, and a dirty buffer is the one its block is pinned to. */
  ghost predicate BufferOk(b: Buf, i: nat, users: multiset<nat>, touched: set<nat>, latest: seq<Block>,
                           pin: map<nat, nat>) {
    && |users| == b.refcnt
    && (b.holder.Some? ==> b.holder.value in users)
    && (i in touched ==> b.holder.Some? && b.valid)
    && (b.valid ==> b.dev == ROOTDEV && b.blockno < |latest|)
    && (b.valid && i !in touched ==> b.data == latest[b.blockno])
    && (b.dirty ==> b.valid && b.blockno in pin && pin[b.blockno] == i)
  }

  /** No block of a real device is in two buffers. */
  ghost predicate NoBlockTwice(buf: seq<Buf>) {
    forall i, j :: 0 <= i < |buf| && 0 <= j < |buf| && i != j && buf[i].dev != 0 && buf[i].dev == buf[j].dev ==>
                     buf[i].blockno != buf[j].blockno
  }

  /** A pinned block is in a dirty buffer; any other block is on the disk as last written. */
  ghost predicate DiskOk(buf: seq<Buf>, disk: seq<Block>, latest: seq<Block>, pin: map<nat, nat>) {
    && |latest| == |disk|
    && (forall n :: n in pin ==> n < |disk| && pin[n] < |buf| && buf[pin[n]].dirty && buf[pin[n]].blockno == n)
    && (forall n :: 0 <= n < |disk| && n !in pin ==> disk[n] == latest[n])
  }

  /** The contents side of the cache invariant. */
  ghost predicate CacheOk(buf: seq<Buf>, users: seq<multiset<nat>>, touched: set<nat>, disk: seq<Block>,
                          latest: seq<Block>, pin: map<nat, nat>) {
    && |buf| == |users| == NBUF
    && NoBlockTwice(buf)
    && DiskOk(buf, disk, latest, pin)
    && forall i: nat :: i < NBUF ==> BufferOk(buf[i], i, users[i], touched, latest, pin)
  }

  /** A change to one buffer that keeps its block, its dirty flag and its own condition. */
  lemma ChangeUsersKeepsCacheOk(buf: seq<Buf>, users: seq<multiset<nat>>, touched: set<nat>, disk: seq<Block>,
                                latest: seq<Block>, pin: map<nat, nat>, i: nat, b: Buf, us: multiset<nat>)
    requires CacheOk(buf, users, touched, disk, latest, pin) && i < NBUF
    requires b.dev == buf[i].dev && b.blockno == buf[i].blockno && b.dirty == buf[i].dirty
    requires BufferOk(b, i, us, touched, latest, pin)
    ensures CacheOk(buf[i := b], users[i := us], touched, disk, latest, pin)
  {
    var buf', users' := buf[i := b], users[i := us];
    forall k: nat | k < NBUF
      ensures BufferOk(buf'[k], k, users'[k], touched, latest, pin)
    {
      assert BufferOk(buf[k], k, users[k], touched, latest, pin);
    }
  }

  /** Giving a free, clean buffer to a block that no buffer has keeps the invariant. */
  lemma RecycleKeepsCacheOk(buf: seq<Buf>, users: seq<multiset<nat>>, touched: set<nat>, disk: seq<Block>,
                            latest: seq<Block>, pin: map<nat, nat>, i: nat, pid: nat, dev: nat, blockno: nat)
    requires CacheOk(buf, users, touched, disk, latest, pin) && i < NBUF && buf[i].refcnt == 0 && !buf[i].dirty
    requires forall k :: 0 <= k < NBUF ==> !(buf[k].dev == dev && buf[k].blockno == blockno)
    ensures CacheOk(buf[i := buf[i].(valid := false, dev := dev, blockno := blockno, refcnt := 1)],
                    users[i := users[i] + multiset{pid}], touched, disk, latest, pin)
  {
    assert BufferOk(buf[i], i, users[i], touched, latest, pin);
    assert users[i] == multiset{};
    var buf', users' := buf[i := buf[i].(valid := false, dev := dev, blockno := blockno, refcnt := 1)],
        users[i := users[i] + multiset{pid}];
    forall k: nat | k < NBUF
      ensures BufferOk(buf'[k], k, users'[k], touched, latest, pin)
    {
      assert BufferOk(buf[k], k, users[k], touched, latest, pin);
    }
  }

  /** Publishing the contents of a valid buffer, on the disk or as dirty, keeps the invariant. */
  lemma PublishKeepsCacheOk(buf: seq<Buf>, users: seq<multiset<nat>>, touched: set<nat>, disk: seq<Block>,
                            latest: seq<Block>, pin: map<nat, nat>, i: nat, toDisk: bool)
    requires CacheOk(buf, users, touched, disk, latest, pin) && i < NBUF && buf[i].valid
    ensures var b := buf[i];
            && b.blockno < |disk|
            && CacheOk(buf[i := b.(dirty := !toDisk)], users, touched - {i}, if toDisk then disk[b.blockno := b.data]
                 else disk,
                       latest[b.blockno := b.data], if toDisk then pin - {b.blockno} else pin[b.blockno := i])
  {
    var b := buf[i];
    assert BufferOk(b, i, users[i], touched, latest, pin);
    var n := b.blockno;
    var buf', touched', latest' := buf[i := b.(dirty := !toDisk)], touched - {i}, latest[n := b.data];
    var pin' := if toDisk then pin - {n} else pin[n := i];
    PublishKeepsDiskOk(buf, users, touched, disk, latest, pin, i, toDisk);
    forall k: nat | k < NBUF
      ensures BufferOk(buf'[k], k, users[k], touched', latest', pin')
    {
      assert BufferOk(buf[k], k, users[k], touched, latest, pin);
    }
  }

  lemma PublishKeepsDiskOk(buf: seq<Buf>, users: seq<multiset<nat>>, touched: set<nat>, disk: seq<Block>,
                           latest: seq<Block>, pin: map<nat, nat>, i: nat, toDisk: bool)
    requires CacheOk(buf, users, touched, disk, latest, pin) && i < NBUF && buf[i].valid && buf[i].blockno < |disk|
    ensures var b, n := buf[i], buf[i].blockno;
            DiskOk(buf[i := b.(dirty := !toDisk)], if toDisk then disk[n := b.data] else disk, latest[n := b.data],
                   if toDisk then pin - {n} else pin[n := i])
  {
    var n := buf[i].blockno;
    forall m | m in pin && m != n
      ensures pin[m] != i
    {
      assert BufferOk(buf[pin[m]], pin[m], users[pin[m]], touched, latest, pin);
    }
    assert BufferOk(buf[i], i, users[i], touched, latest, pin);
    if n in pin {
      assert BufferOk(buf[pin[n]], pin[n], users[pin[n]], touched, latest, pin);
    }
  }

  /** What a process counts on: a buffer of its own is locked by it and as last written or logged, and nobody has the
      lock of another buffer with one of the blocks. */
  ghost predicate IsFor(b: Buf, i: nat, users: multiset<nat>, touched: set<nat>, pid: nat, mine: bool,
                              blocks: set<nat>) {
    if mine then b.holder == Some(pid) && b.valid && pid in users && i !in touched
    else b.dev == ROOTDEV && b.blockno in blocks ==> b.holder == None
  }

  /** How far a call of `bread` gets: to a buffer, to sleep on the lock of a buffer, or to a panic. */
  datatype BreadOutcome = Got(b: nat) | Asleep(b: nat) | Panicked

  class BufferCache {
    var buf: seq<Buf>
    var next: seq<nat>
    var prev: seq<nat>
    var disk: seq<Block>

    // The list order and its inverse.
    ghost var order: seq<nat>
    ghost var pos: seq<nat>
    // The processes between their `refcnt++` and their `refcnt--`, for every buffer.
    ghost var users: seq<multiset<nat>>
    // Buffers whose holder has changed the data and has not yet written or logged it.
    ghost var touched: set<nat>
    // What was last written or logged for each block, and the dirty buffer that still has to reach the disk.
    ghost var latest: seq<Block>
    ghost var pin: map<nat, nat>
    // The disk after every block write.
    ghost var trace: seq<seq<Block>>

    ghost predicate Valid()
      reads this
    {
      IsRing(next, prev, order) && IsPermutation(order, pos) && CacheOk(buf, users, touched, disk, latest, pin)
    }

    /** The process has the buffer's sleep lock and its contents are loaded. */
    ghost predicate Holds(pid: nat, i: nat)
      reads this
      requires |buf| == NBUF
    {
      i < NBUF && buf[i].holder == Some(pid) && buf[i].valid
    }

    /** No process uses any buffer. */
    ghost predicate Quiet()
      reads this
    {
      |users| == |buf| == NBUF && touched == {} &&
          forall i: nat :: i < NBUF ==> buf[i].holder == None && users[i] == multiset{}
    }

    ghost predicate IsCached(dev: nat, blockno: nat)
      reads this
    {
      exists i :: 0 <= i < |buf| && buf[i].dev == dev && buf[i].blockno == blockno
    }

    ghost predicate IsReusable(i: nat)
      reads this
      requires i < |buf|
    {
      buf[i].refcnt == 0 && !buf[i].dirty
    }

    ghost predicate SomeReusable()
      reads this
    {
      exists i :: 0 <= i < |buf| && IsReusable(i)
    }

    /** `binit` over a disk image. */
    constructor (image: seq<Block>)
      ensures Valid() && Quiet() && disk == latest == image && trace == [] && pin == map[]
    {
      buf := seq(NBUF, _ => Buf(false, false, 0, 0, None, 0, ZERO_BLOCK));
      next, prev := seq(NBUF + 1, _ => HEAD), seq(NBUF + 1, _ => HEAD);
      disk, latest, trace := image, image, [];
      order, pos := [], [];
      users := seq(NBUF, _ => multiset{});
      touched, pin := {}, map[];
      new;
      InitList();
    }

    /** The loop of `binit`. */
    method InitList()
      requires |next| == |prev| == NBUF + 1 && order == []
      requires next == prev == seq(NBUF + 1, _ => HEAD)
      modifies this`next, this`prev, this`order, this`pos
      ensures IsRing(next, prev, order) && IsPermutation(order, pos)
    {
      var b := 0;
      while b < NBUF
        invariant b <= NBUF && IsRing(next, prev, order)
        invariant |order| == b && forall k :: 0 <= k < b ==> order[k] == b - 1 - k
      {
        PushFrontKeepsRing(next, prev, order, b);
        next := next[b := next[HEAD]];
        prev := prev[b := HEAD];
        prev := prev[next[HEAD] := b];
        next := next[HEAD := b];
        order := [b] + order;
        b := b + 1;
      }
      pos := seq(NBUF, i requires 0 <= i < NBUF => NBUF - 1 - i);
    }

    /** The first loop of `bget`, from the most recently used buffer on. */
    method FindCached(dev: nat, blockno: nat) returns (r: Option<nat>)
      requires Valid()
      ensures r == None <==> !IsCached(dev, blockno)
      ensures r.Some? ==> r.value < NBUF && buf[r.value].dev == dev && buf[r.value].blockno == blockno
      ensures r.Some? ==> forall k :: 0 <= k < pos[r.value] ==>
                !(buf[order[k]].dev == dev && buf[order[k]].blockno == blockno)
    {
      assert |buf| == NBUF;
      hide CacheOk;
      ghost var k := 0;
      ghost var ring := Ring(order);
      assert LinkAt(next, prev, ring, 0);
      var b := next[HEAD];
      while b != HEAD
        invariant 0 <= k <= NBUF && b == ring[k+1]
        invariant forall m :: 0 <= m < k ==> !(buf[order[m]].dev == dev && buf[order[m]].blockno == blockno)
        decreases NBUF - k
      {
        if buf[b].dev == dev && buf[b].blockno == blockno {
          return Some(b);
        }
        assert LinkAt(next, prev, ring, k + 1);
        b := next[b];
        k := k + 1;
      }
      forall i | 0 <= i < NBUF
        ensures !(buf[i].dev == dev && buf[i].blockno == blockno)
      {
        assert order[pos[i]] == i;
      }
      return None;
    }

    /** The second loop of `bget`, from the least recently used buffer on. */
    method FindReusable() returns (r: Option<nat>)
      requires Valid()
      ensures r == None <==> !SomeReusable()
      ensures r.Some? ==> r.value < NBUF && IsReusable(r.value)
      ensures r.Some? ==> forall k :: pos[r.value] < k < NBUF ==> !IsReusable(order[k])
    {
      ghost var k := NBUF;
      ghost var ring := Ring(order);
      assert LinkAt(next, prev, ring, NBUF);
      var b := prev[HEAD];
      while b != HEAD
        invariant 0 <= k <= NBUF && b == ring[k]
        invariant forall m :: k <= m < NBUF ==> !IsReusable(order[m])
        decreases k
      {
        if buf[b].refcnt == 0 && !buf[b].dirty {
          assert IsReusable(b);
          return Some(b);
        }
        assert LinkAt(next, prev, ring, k - 1);
        b := prev[b];
        k := k - 1;
      }
      forall i | 0 <= i < NBUF
        ensures !IsReusable(i)
      {
        assert order[pos[i]] == i;
      }
      return None;
    }

    /** The stretch of `bget` under `bcache.lock`: the first buffer in the list that has the block, else the last one
        that nobody uses and that is not dirty; `None` is the panic for want of buffers. */
    method Get(pid: nat, dev: nat, blockno: nat) returns (r: Option<nat>)
      requires Valid()
      modifies this`buf, this`users
      ensures Valid()
      ensures r.Some? ==> r.value < NBUF && users == old(users)[r.value := old(users[r.value]) + multiset{pid}]
      ensures r.Some? && old(IsCached(dev, blockno)) ==>
                && old(buf[r.value]).dev == dev && old(buf[r.value]).blockno == blockno
                && buf == old(buf)[r.value := old(buf[r.value]).(refcnt := old(buf[r.value]).refcnt + 1)]
      ensures r.Some? && !old(IsCached(dev, blockno)) ==>
                && old(IsReusable(r.value))
                && (forall k :: pos[r.value] < k < NBUF ==> !old(IsReusable(order[k])))
                && buf == old(buf)[r.value :=
                     old(buf[r.value]).(valid := false, dev := dev, blockno := blockno, refcnt := 1)]
      ensures r == None <==> !old(IsCached(dev, blockno)) && !old(SomeReusable())
      ensures r == None ==> unchanged(this)
    {
      r := FindCached(dev, blockno);
      if r.Some? {
        var b := r.value;
        assert BufferOk(buf[b], b, users[b], touched, latest, pin);
        ChangeUsersKeepsCacheOk(buf, users, touched, disk, latest, pin, b, buf[b].(refcnt := buf[b].refcnt + 1),
            users[b] + multiset{pid});
        buf := buf[b := buf[b].(refcnt := buf[b].refcnt + 1)];
        users := users[b := users[b] + multiset{pid}];
        return;
      }
      r := FindReusable();
      if r.Some? {
        var b := r.value;
        RecycleKeepsCacheOk(buf, users, touched, disk, latest, pin, b, pid, dev, blockno);
        buf := buf[b := buf[b].(valid := false, dirty := false, dev := dev, blockno := blockno, refcnt := 1)];
        users := users[b := users[b] + multiset{pid}];
      }
    }

    /** `acquiresleep` on the buffer: false while another process has the lock and the caller must sleep. */
    method Lock(pid: nat, i: nat) returns (taken: bool)
      requires Valid() && i < NBUF && pid in users[i]
      modifies this`buf
      ensures Valid()
      ensures taken <==> old(buf[i]).holder == None
      ensures buf == if taken then old(buf)[i := old(buf[i]).(holder := Some(pid))] else old(buf)
    {
      taken := buf[i].holder == None;
      if taken {
        buf := buf[i := buf[i].(holder := Some(pid))];
      }
    }

    /** The rest of `bread`: read the block unless the buffer is valid; false is one of iderw's panics. Whoever gets
        here sees what was last written or logged for the block. */
    method Fill(pid: nat, i: nat) returns (ok: bool)
      requires Valid() && i < NBUF && buf[i].holder == Some(pid)
      modifies this`buf
      ensures Valid()
      ensures ok <==> old(buf[i]).valid || (buf[i].dev == 1 && buf[i].blockno < |disk|)
      ensures !ok ==> unchanged(this)
      ensures ok ==> Holds(pid, i) && buf == old(buf)[i := old(buf[i]).(valid := true, data := buf[i].data)]
      ensures ok && i !in touched ==> buf[i].blockno < |latest| && buf[i].data == latest[buf[i].blockno]
      ensures ok && i in touched ==> unchanged(this)
    {
      assert BufferOk(buf[i], i, users[i], touched, latest, pin);
      if !buf[i].valid {
        if buf[i].dev != ROOTDEV || buf[i].blockno >= |disk| {
          return false;
        }
        var n := buf[i].blockno;
        assert n in pin ==> BufferOk(buf[pin[n]], pin[n], users[pin[n]], touched, latest, pin);
        buf := buf[i := buf[i].(valid := true, data := disk[n])];
      }
      return true;
    }

    /** The holder changes the bytes in the buffer. */
    method SetData(pid: nat, i: nat, data: Block)
      requires Valid() && Holds(pid, i)
      modifies this`buf, this`touched
      ensures Valid() && Holds(pid, i)
      ensures buf == old(buf)[i := old(buf[i]).(data := data)] && touched == old(touched) + {i}
    {
      buf := buf[i := buf[i].(data := data)];
      touched := touched + {i};
    }

    /** `bwrite`: one block write; false is its panic. */
    method Write(pid: nat, i: nat) returns (ok: bool)
      requires Valid() && i < NBUF && (buf[i].holder == Some(pid) ==> buf[i].valid)
      modifies this`buf, this`touched, this`latest, this`pin, this`disk, this`trace
      ensures Valid()
      ensures ok <==> old(buf[i]).holder == Some(pid)
      ensures !ok ==> unchanged(this)
      ensures ok ==> var b := old(buf[i]);
                && b.blockno < |old(disk)|
                && buf == old(buf)[i := b.(dirty := false)] && touched == old(touched) - {i}
                && disk == old(disk)[b.blockno := b.data] && trace == old(trace) + [disk]
                && latest == old(latest)[b.blockno := b.data] && pin == old(pin) - {b.blockno}
    {
      if buf[i].holder != Some(pid) {
        return false;
      }
      PublishKeepsCacheOk(buf, users, touched, disk, latest, pin, i, true);
      var n := buf[i].blockno;
      disk := disk[n := buf[i].data];
      buf := buf[i := buf[i].(dirty := false, valid := true)];
      touched, latest, pin, trace := touched - {i}, latest[n := buf[i].data], pin - {n}, trace + [disk];
      return true;
    }

    lemma HeldIsOnDisk(pid: nat, i: nat)
      requires Valid() && Holds(pid, i)
      ensures buf[i].blockno < |disk|
    {
      assert BufferOk(buf[i], i, users[i], touched, latest, pin);
    }

    /** What `log_write` does to the buffer: it is dirty until the commit writes it. */
    method MarkDirty(pid: nat, i: nat)
      requires Valid() && Holds(pid, i)
      modifies this`buf, this`touched, this`latest, this`pin
      ensures Valid()
      ensures var b := old(buf[i]);
                && b.blockno < |old(disk)|
                && buf == old(buf)[i := b.(dirty := true)] && touched == old(touched) - {i}
                && latest == old(latest)[b.blockno := b.data] && pin == old(pin)[b.blockno := i]
    {
      PublishKeepsCacheOk(buf, users, touched, disk, latest, pin, i, false);
      var n := buf[i].blockno;
      buf := buf[i := buf[i].(dirty := true)];
      touched, latest, pin := touched - {i}, latest[n := buf[i].data], pin[n := i];
    }

    /** The first half of `brelse`: give up the sleep lock of a buffer whose changes have been written or logged. */
    method Unlock(pid: nat, i: nat) returns (ok: bool)
      requires Valid() && i < NBUF && (buf[i].holder == Some(pid) ==> i !in touched)
      modifies this`buf
      ensures Valid()
      ensures ok <==> old(buf[i]).holder == Some(pid)
      ensures buf == if ok then old(buf)[i := old(buf[i]).(holder := None)] else old(buf)
    {
      ok := buf[i].holder == Some(pid);
      if ok {
        buf := buf[i := buf[i].(holder := None)];
      }
    }

    method MoveToFront(i: nat)
      requires IsRing(next, prev, order) && IsPermutation(order, pos) && i < NBUF
      modifies this`next, this`prev, this`order, this`pos
      ensures IsRing(next, prev, order) && IsPermutation(order, pos)
      ensures order == MovedToFront(old(order), old(pos[i]))
    {
      ghost var pos' := MoveToFrontKeepsPermutation(order, pos, i);
      ghost var rest := order[..pos[i]] + order[pos[i]+1..];
      UnlinkKeepsRing(next, prev, order, pos[i]);
      prev := prev[next[i] := prev[i]];
      next := next[prev[i] := next[i]];
      PushFrontKeepsRing(next, prev, rest, i);
      next := next[i := next[HEAD]];
      prev := prev[i := HEAD];
      prev := prev[next[HEAD] := i];
      next := next[HEAD := i];
      order, pos := MovedToFront(order, pos[i]), pos';
    }

    /** The second half of `brelse`: drop the reference; a buffer nobody uses moves to the front of the list. */
    method Unref(pid: nat, i: nat)
      requires Valid() && i < NBUF && pid in users[i] && buf[i].holder != Some(pid)
      modifies this`buf, this`users, this`next, this`prev, this`order, this`pos
      ensures Valid()
      ensures users == old(users)[i := old(users[i]) - multiset{pid}]
      ensures old(buf[i]).refcnt > 0 && buf == old(buf)[i := old(buf[i]).(refcnt := old(buf[i]).refcnt - 1)]
      ensures order == if buf[i].refcnt == 0 then MovedToFront(old(order), old(pos[i])) else old(order)
    {
      assert BufferOk(buf[i], i, users[i], touched, latest, pin);
      ChangeUsersKeepsCacheOk(buf, users, touched, disk, latest, pin, i, buf[i].(refcnt := buf[i].refcnt - 1),
          users[i] - multiset{pid});
      buf := buf[i := buf[i].(refcnt := buf[i].refcnt - 1)];
      users := users[i := users[i] - multiset{pid}];
      if buf[i].refcnt == 0 {
        MoveToFront(i);
      }
    }

    // ---------- whole calls ----------

    /** The process holds the buffers in `mine`, unchanged so far, and nobody holds another buffer with one of
      `blocks`. */
    ghost predicate HoldsOnly(pid: nat, mine: set<nat>, blocks: set<nat>)
      reads this
    {
      && Valid()
      && (forall i :: i in mine ==> i < NBUF)
      && forall i: nat :: i < NBUF ==> IsFor(buf[i], i, users[i], touched, pid, i in mine, blocks)
    }


    /** Every block that waits for no buffer is on the disk. */
    lemma UnpinnedIsOnDisk(pid: nat, mine: set<nat>, blocks: set<nat>)
      requires HoldsOnly(pid, mine, blocks)
      ensures |latest| == |disk| && |buf| == |users| == NBUF
      ensures forall n :: 0 <= n < |disk| && n !in pin ==> disk[n] == latest[n]
    {
    }

    /** Some process has the lock of a buffer with the block. */
    ghost predicate IsLocked(blockno: nat)
      reads this
    {
      exists i :: 0 <= i < |buf| && buf[i].dev == ROOTDEV && buf[i].blockno == blockno && buf[i].holder.Some?
    }

    /** `bread`: a buffer with the block and its newest contents, the wait for a buffer that somebody has locked, or a
        panic, when no buffer can be had for the block or there is no such block. */
    method Bread(pid: nat, blockno: nat) returns (r: BreadOutcome)
      requires Valid()
      modifies this`buf, this`users
      ensures Valid()
      ensures r.Asleep? <==> old(IsLocked(blockno))
      ensures r.Panicked? <==>
                if old(IsCached(ROOTDEV, blockno)) then !old(IsLocked(blockno)) && blockno >= |disk|
                else !old(SomeReusable()) || blockno >= |disk|
      ensures !r.Panicked? ==>
                && r.b < |buf| && buf[r.b].dev == 1 && buf[r.b].blockno == blockno &&
                     buf == old(buf)[r.b := buf[r.b]]
                && users == old(users)[r.b := old(users[r.b]) + multiset{pid}]
      ensures r.Asleep? ==> buf[r.b] == old(buf[r.b]).(refcnt := old(buf[r.b]).refcnt + 1)
      ensures r.Got? ==>
                && Holds(pid, r.b) && old(buf[r.b].holder) == None && r.b !in touched
                && blockno < |disk| == |latest| && buf[r.b].data == latest[blockno]
    {
      hide IsRing, IsPermutation;
      var i := Get(pid, ROOTDEV, blockno);
      if i == None {
        return Panicked;
      }
      var b := i.value;
      assert old(BufferOk(buf[b], b, users[b], touched, latest, pin));
      var taken := Lock(pid, b);
      if !taken {
        return Asleep(b);
      }
      var ok := Fill(pid, b);
      return if ok then Got(b) else Panicked;
    }

    /** `bread` by a process that already holds `mine`; `None` is a panic. */
    method BreadMore(pid: nat, blockno: nat, ghost mine: set<nat>, ghost blocks: set<nat>) returns (r: Option<nat>)
      requires HoldsOnly(pid, mine, blocks) && blockno in blocks && forall i :: i in mine ==> buf[i].blockno != blockno
      modifies this`buf, this`users
      ensures r.Some? ==> HoldsOnly(pid, mine + {r.value}, blocks) && r.value !in mine
      ensures r.Some? ==> r.value < |buf| && blockno < |latest|
      ensures r.Some? ==> buf[r.value].blockno == blockno < |disk| && buf[r.value].data == latest[blockno]
      ensures r.Some? ==> forall i :: i in mine ==> buf[i] == old(buf[i])
    {
      forall i | 0 <= i < NBUF && buf[i].dev == ROOTDEV && buf[i].blockno == blockno
        ensures buf[i].holder == None
      {
        assert IsFor(buf[i], i, users[i], touched, pid, i in mine, blocks);
      }
      var b := Bread(pid, blockno);
      if b.Panicked? {
        return None;
      }
      r := Some(b.b);
      forall k: nat | k < NBUF
        ensures IsFor(buf[k], k, users[k], touched, pid, k in mine + {b.b}, blocks)
      {
        assert old(IsFor(buf[k], k, users[k], touched, pid, k in mine, blocks));
      }
    }

    /** The holder replaces the bytes and calls `bwrite`. */
    method ChangeAndWrite(pid: nat, i: nat, data: Block, ghost mine: set<nat>, ghost blocks: set<nat>)
      requires HoldsOnly(pid, mine, blocks) && i in mine
      modifies this`buf, this`touched, this`latest, this`pin, this`disk, this`trace
      ensures HoldsOnly(pid, mine, blocks)
      ensures var n := old(buf[i].blockno);
                && n < |old(disk)|
                && disk == old(disk)[n := data] && trace == old(trace) + [disk]
                && latest == old(latest)[n := data] && pin == old(pin) - {n}
    {
      assert IsFor(buf[i], i, users[i], touched, pid, true, blocks);
      SetData(pid, i, data);
      var ok := Write(pid, i);
      forall k: nat | k < NBUF
        ensures IsFor(buf[k], k, users[k], touched, pid, k in mine, blocks)
      {
        assert old(IsFor(buf[k], k, users[k], touched, pid, k in mine, blocks));
      }
    }

    lemma HolderIsUser(pid: nat, i: nat)
      requires Valid() && i < NBUF
      ensures |buf| == |users| == NBUF && (buf[i].holder == Some(pid) ==> pid in users[i])
    {
      assert BufferOk(buf[i], i, users[i], touched, latest, pin);
    }

    /** `brelse`; false is its panic, exactly without the lock. A buffer nobody uses moves to the front of the list. */
    method Brelse(pid: nat, i: nat) returns (ok: bool)
      requires Valid() && i < NBUF && (buf[i].holder == Some(pid) ==> i !in touched)
      modifies this`buf, this`users, this`next, this`prev, this`order, this`pos
      ensures Valid()
      ensures ok <==> old(buf[i]).holder == Some(pid)
      ensures !ok ==> unchanged(this)
      ensures ok ==>
                && old(buf[i]).refcnt > 0
                && buf == old(buf)[i := old(buf[i]).(holder := None, refcnt := old(buf[i]).refcnt - 1)]
                && users == old(users)[i := old(users[i]) - multiset{pid}]
                && order == if buf[i].refcnt == 0 then MovedToFront(old(order), old(pos[i])) else old(order)
    {
      hide CacheOk, IsRing, IsPermutation, MovedToFront;
      HolderIsUser(pid, i);
      ok := Unlock(pid, i);
      if ok {
        Unref(pid, i);
      }
    }

    /** `brelse` by a process that holds `mine`. */
    method BrelseMine(pid: nat, i: nat, ghost mine: set<nat>, ghost blocks: set<nat>)
      requires HoldsOnly(pid, mine, blocks) && i in mine
      modifies this`buf, this`users, this`next, this`prev, this`order, this`pos
      ensures HoldsOnly(pid, mine - {i}, blocks)
    {
      assert IsFor(buf[i], i, users[i], touched, pid, true, blocks);
      UnpinnedIsOnDisk(pid, mine, blocks);
      hide CacheOk, IsRing, IsPermutation, MovedToFront;
      var ok := Brelse(pid, i);
      forall k: nat | k < NBUF
        ensures IsFor(buf[k], k, users[k], touched, pid, k in mine - {i}, blocks)
      {
        assert old(IsFor(buf[k], k, users[k], touched, pid, k in mine, blocks));
      }
    }
  }
}
