/** The user-level memory allocator: `malloc`, `free` and `morecore` over one circular, address-ordered free list.

Addresses count header-sized units. `mem` maps a unit to the header stored there; the list is found by following `ptr`
from `freep` as the program does. The free list as a sequence and the blocks handed out are ghost state; `Valid` says
how they lie in memory.
 */
module Umalloc {

  const HEADER_SIZE := 8
  const MIN_UNITS := 4096
  const NULL := 0

  datatype Header = Header(ptr: int, size: nat)

  /** `size` units starting with the header at `addr`. */
  datatype Blk = Blk(addr: int, size: nat)

  ghost predicate Apart(b: Blk, c: Blk) {
    b.addr + b.size <= c.addr || c.addr + c.size <= b.addr
  }

  /** Free block `i` ends before the next one begins, with a gap in between unless it is among `lo` up to `hi`. */
  ghost predicate Before(fl: seq<Blk>, i: nat, lo: nat, hi: nat)
    requires i + 1 < |fl|
  {
    var end := fl[i].addr + fl[i].size;
    end < fl[i+1].addr || (lo <= i < hi && end == fl[i+1].addr)
  }

  /** In address order, and coalesced except where blocks `lo` up to `hi` meet their successors. The first block is the
      static `base`, of size zero. */
  ghost predicate SortedExcept(fl: seq<Blk>, lo: nat, hi: nat) {
    && |fl| >= 1 && fl[0].size == 0
    && (forall i :: 1 <= i < |fl| ==> fl[i].size >= 1)
    && forall i: nat :: i + 1 < |fl| ==> Before(fl, i, lo, hi)
  }

  /** In address order and fully coalesced. */
  ghost predicate Sorted(fl: seq<Blk>) {
    SortedExcept(fl, 0, 0)
  }

  lemma {:induction false} SortedPairs(fl: seq<Blk>, i: nat, j: nat)
    requires Sorted(fl) && i < j < |fl|
    ensures fl[i].addr + fl[i].size < fl[j].addr
    decreases j
  {
    assert Before(fl, j - 1, 0, 0);
    if i < j - 1 {
      SortedPairs(fl, i, j - 1);
    }
  }

  /** Blocks in use overlap neither free blocks nor each other. */
  ghost predicate Separate(fl: seq<Blk>, live: seq<Blk>) {
    && (forall i, j :: 0 <= i < |fl| && 0 <= j < |live| ==> Apart(fl[i], live[j]))
    && (forall i, j :: 0 <= i < j < |live| ==> Apart(live[i], live[j]))
    && (forall j :: 0 <= j < |live| ==> live[j].size >= 1)
    && (forall j :: 0 <= j < |live| && |fl| > 0 ==> fl[0].addr < live[j].addr)
  }

  function NextIndex(n: nat, i: nat): nat
    requires i < n
  {
    if i + 1 < n then i + 1 else 0
  }

  ghost predicate HeaderAt(mem: map<int, Header>, fl: seq<Blk>, i: nat)
    requires i < |fl|
  {
    fl[i].addr in mem && mem[fl[i].addr] == Header(fl[NextIndex(|fl|, i)].addr, fl[i].size)
  }

  /** Every free block's header holds its size and points to the next free block, the last one back to the first. */
  ghost predicate IsCycle(mem: map<int, Header>, fl: seq<Blk>) {
    forall i: nat :: i < |fl| ==> HeaderAt(mem, fl, i)
  }

  ghost predicate LiveHeaders(mem: map<int, Header>, live: seq<Blk>) {
    forall j :: 0 <= j < |live| ==> live[j].addr in mem && mem[live[j].addr].size == live[j].size
  }

  /** The two memories agree on all units of the block. */
  ghost predicate SameUnits(m: map<int, Header>, was: map<int, Header>, b: Blk) {
    forall u :: b.addr <= u < b.addr + b.size ==> (u in m <==> u in was) && (u in m ==> m[u] == was[u])
  }

  ghost predicate SameLive(m: map<int, Header>, was: map<int, Header>, live: seq<Blk>) {
    forall j :: 0 <= j < |live| ==> SameUnits(m, was, live[j])
  }

  lemma NothingTouched(m: map<int, Header>, live: seq<Blk>)
    ensures SameLive(m, m, live)
  {
  }

  lemma SameLiveTwice(m: map<int, Header>, mid: map<int, Header>, was: map<int, Header>, live: seq<Blk>)
    requires SameLive(m, mid, live) && SameLive(mid, was, live)
    ensures SameLive(m, was, live)
  {
  }

  ghost function Units(bs: seq<Blk>): nat {
    if bs == [] then 0 else bs[0].size + Units(bs[1..])
  }

  lemma {:induction false} UnitsConcat(a: seq<Blk>, b: seq<Blk>)
    ensures Units(a + b) == Units(a) + Units(b)
  {
    if a == [] {
      assert a + b == b;
    } else {
      assert (a + b)[1..] == a[1..] + b;
      UnitsConcat(a[1..], b);
    }
  }

  lemma UnitsSplit(bs: seq<Blk>, k: nat)
    requires k < |bs|
    ensures Units(bs) == Units(bs[..k]) + bs[k].size + Units(bs[k+1..])
  {
    assert bs == bs[..k] + ([bs[k]] + bs[k+1..]);
    assert ([bs[k]] + bs[k+1..])[1..] == bs[k+1..];
    UnitsConcat(bs[..k], [bs[k]] + bs[k+1..]);
  }

  // ---------- freeing ----------

  /** Address `a` lies after free block `k` and before the next one, if there is a next one. */
  ghost predicate IsGap(fl: seq<Blk>, k: nat, a: int) {
    k < |fl| && fl[k].addr < a && (k + 1 < |fl| ==> a < fl[k+1].addr)
  }

  lemma {:induction false} GapExists(fl: seq<Blk>, a: int, k: nat) returns (g: nat)
    requires k < |fl| && fl[k].addr < a && forall i :: 0 <= i < |fl| ==> fl[i].addr != a
    ensures IsGap(fl, g, a)
    decreases |fl| - k
  {
    if k + 1 < |fl| && fl[k+1].addr < a {
      g := GapExists(fl, a, k + 1);
    } else {
      g := k;
    }
  }

  ghost function Inserted(fl: seq<Blk>, k: nat, b: Blk): seq<Blk>
    requires k < |fl|
  {
    fl[..k+1] + [b] + fl[k+1..]
  }

  /** Blocks `i` and `i + 1` become one if they touch. */
  ghost function Merged(fl: seq<Blk>, i: nat): seq<Blk> {
    if i + 1 < |fl| && fl[i].addr + fl[i].size == fl[i+1].addr
    then fl[..i] + [Blk(fl[i].addr, fl[i].size + fl[i+1].size)] + fl[i+2..]
    else fl
  }

  /** The free list after `b` has been freed into gap `k`: put in place, joined with the next block, then with the one
      before. */
  ghost function FreeInto(fl: seq<Blk>, k: nat, b: Blk): seq<Blk>
    requires k < |fl|
  {
    Merged(Merged(Inserted(fl, k, b), k + 1), k)
  }

  lemma InsertedIsSorted(fl: seq<Blk>, k: nat, b: Blk)
    requires Sorted(fl) && IsGap(fl, k, b.addr) && b.size >= 1 && Apart(fl[k], b) &&
              (k + 1 < |fl| ==> Apart(fl[k+1], b))
    ensures SortedExcept(Inserted(fl, k, b), k, k + 2)
  {
    var out, hi := Inserted(fl, k, b), k + 2;
    forall i: nat | i + 1 < |out|
      ensures Before(out, i, k, hi)
    {
      if i < k {
        assert Before(fl, i, 0, 0);
      } else if i > k + 1 {
        assert Before(fl, i - 1, 0, 0);
      }
    }
  }

  lemma MergedIsSorted(fl: seq<Blk>, k: nat, i: nat)
    requires SortedExcept(fl, k, i + 1) && k <= i && (i == 0 && |fl| > 1 ==> fl[0].addr < fl[1].addr)
    ensures SortedExcept(Merged(fl, i), k, i)
  {
    var out := Merged(fl, i);
    forall j: nat | j + 1 < |out|
      ensures Before(out, j, k, i)
    {
      assert Before(fl, j, k, i + 1);
      if out != fl && j + 2 < |fl| {
        assert Before(fl, j + 1, k, i + 1);
      }
    }
  }

  lemma FreeIntoIsSorted(fl: seq<Blk>, k: nat, b: Blk)
    requires Sorted(fl) && IsGap(fl, k, b.addr) && b.size >= 1 && Apart(fl[k], b) &&
              (k + 1 < |fl| ==> Apart(fl[k+1], b))
    ensures Sorted(FreeInto(fl, k, b))
  {
    InsertedIsSorted(fl, k, b);
    MergedIsSorted(Inserted(fl, k, b), k, k + 1);
    MergedIsSorted(Merged(Inserted(fl, k, b), k + 1), k, k);
    var out := FreeInto(fl, k, b);
    forall i: nat | i + 1 < |out|
      ensures Before(out, i, 0, 0)
    {
      assert Before(out, i, k, k);
    }
  }

  lemma MergedKeepsUnits(fl: seq<Blk>, i: nat)
    ensures Units(Merged(fl, i)) == Units(fl)
  {
    var out := Merged(fl, i);
    if out != fl {
      UnitsSplit(fl, i);
      UnitsSplit(fl[i+1..], 0);
      UnitsSplit(out, i);
      assert fl[i+1..][1..] == fl[i+2..] == out[i+1..] && out[..i] == fl[..i];
      assert Units(fl[i+1..][..0]) == 0;
    }
  }

  lemma InsertedUnits(fl: seq<Blk>, k: nat, b: Blk)
    requires k < |fl|
    ensures Units(Inserted(fl, k, b)) == Units(fl) + b.size
  {
    var ins := Inserted(fl, k, b);
    UnitsSplit(ins, k + 1);
    assert ins[..k+1] == fl[..k+1] && ins[k+2..] == fl[k+1..] && fl == fl[..k+1] + fl[k+1..];
    UnitsConcat(fl[..k+1], fl[k+1..]);
  }

  lemma FreeIntoKeepsUnits(fl: seq<Blk>, k: nat, b: Blk)
    requires k < |fl|
    ensures Units(FreeInto(fl, k, b)) == Units(fl) + b.size
  {
    var ins := Inserted(fl, k, b);
    MergedKeepsUnits(ins, k + 1);
    MergedKeepsUnits(Merged(ins, k + 1), k);
    InsertedUnits(fl, k, b);
  }

  /** Every block of the list is apart from `c`. */
  ghost predicate AllApart(fl: seq<Blk>, c: Blk) {
    forall i :: 0 <= i < |fl| ==> Apart(fl[i], c)
  }

  lemma FreeIntoIsApart(fl: seq<Blk>, k: nat, b: Blk, c: Blk)
    requires k < |fl| && AllApart(fl, c) && Apart(b, c) && c.size >= 1
    ensures AllApart(FreeInto(fl, k, b), c)
  {
    MergedIsApart(Inserted(fl, k, b), k + 1, c);
    MergedIsApart(Merged(Inserted(fl, k, b), k + 1), k, c);
  }

  lemma MergedIsApart(fl: seq<Blk>, i: nat, c: Blk)
    requires AllApart(fl, c) && c.size >= 1
    ensures AllApart(Merged(fl, i), c)
  {
  }

  /** Some block of the new list is at least as large as the freed one. */
  lemma FreeIntoHasRoom(fl: seq<Blk>, k: nat, b: Blk) returns (m: nat)
    requires k < |fl|
    ensures m < |FreeInto(fl, k, b)| && FreeInto(fl, k, b)[m].size >= b.size
    ensures k < |FreeInto(fl, k, b)| && FreeInto(fl, k, b)[k].addr == fl[k].addr &&
              FreeInto(fl, k, b)[0].addr == fl[0].addr
  {
    var one := Merged(Inserted(fl, k, b), k + 1);
    m := if one[k].addr + one[k].size == one[k+1].addr then k else k + 1;
  }

  ghost predicate AllBelow(bs: seq<Blk>, brk: int) {
    forall i :: 0 <= i < |bs| ==> bs[i].addr + bs[i].size <= brk
  }

  lemma FreeIntoIsBelow(fl: seq<Blk>, k: nat, b: Blk, brk: int)
    requires k < |fl| && AllBelow(fl, brk) && b.addr + b.size <= brk
    ensures AllBelow(FreeInto(fl, k, b), brk)
  {
    MergedIsBelow(Inserted(fl, k, b), k + 1, brk);
    MergedIsBelow(Merged(Inserted(fl, k, b), k + 1), k, brk);
  }

  lemma MergedIsBelow(fl: seq<Blk>, i: nat, brk: int)
    requires AllBelow(fl, brk)
    ensures AllBelow(Merged(fl, i), brk)
  {
  }

  function Without<T>(s: seq<T>, k: nat): seq<T>
    requires k < |s|
  {
    s[..k] + s[k+1..]
  }

  lemma WithoutIsSeparate(fl: seq<Blk>, live: seq<Blk>, j: nat)
    requires Separate(fl, live) && j < |live|
    ensures Separate(fl, Without(live, j)) && AllApart(Without(live, j), live[j]) && AllApart(fl, live[j])
  {
    var rest := Without(live, j);
    forall x | 0 <= x < |rest|
      ensures Apart(rest[x], live[j])
    {
      assert Apart(live[if x < j then x else j], live[if x < j then j else x + 1]);
    }
    forall x, y | 0 <= x < y < |rest|
      ensures Apart(rest[x], rest[y])
    {
      assert Apart(live[if x < j then x else x + 1], live[if y < j then y else y + 1]);
    }
    forall i, x | 0 <= i < |fl| && 0 <= x < |rest|
      ensures Apart(fl[i], rest[x])
    {
      assert Apart(fl[i], live[if x < j then x else x + 1]);
    }
    forall i | 0 <= i < |fl|
      ensures Apart(fl[i], live[j])
    {
    }
  }

  lemma FreeIntoIsSeparate(fl: seq<Blk>, k: nat, b: Blk, live: seq<Blk>)
    requires k < |fl| && Separate(fl, live) && AllApart(live, b)
    ensures Separate(FreeInto(fl, k, b), live)
  {
    var out := FreeInto(fl, k, b);
    var m := FreeIntoHasRoom(fl, k, b);
    forall x | 0 <= x < |live|
      ensures AllApart(out, live[x])
    {
      forall i | 0 <= i < |fl| ensures Apart(fl[i], live[x]) {}
      assert Apart(live[x], b);
      FreeIntoIsApart(fl, k, b, live[x]);
    }
    forall i, x | 0 <= i < |out| && 0 <= x < |live|
      ensures Apart(out[i], live[x])
    {
      assert AllApart(out, live[x]);
    }
  }

  /** What `free` keeps, in terms of the lists alone. */
  lemma FreedLists(fl: seq<Blk>, live: seq<Blk>, k: nat, j: nat, brk: int)
    requires Sorted(fl) && Separate(fl, live) && j < |live| && IsGap(fl, k, live[j].addr)
    requires AllBelow(fl, brk) && AllBelow(live, brk)
    ensures var out := FreeInto(fl, k, live[j]);
            && Sorted(out) && out[0].addr == fl[0].addr && (k < |out| && out[k].addr == fl[k].addr)
            && Separate(out, Without(live, j)) && AllBelow(out, brk) && AllBelow(Without(live, j), brk)
            && Units(out) + Units(Without(live, j)) == Units(fl) + Units(live)
  {
    var b := live[j];
    WithoutIsSeparate(fl, live, j);
    FreeIntoIsSorted(fl, k, b);
    FreeIntoIsBelow(fl, k, b, brk);
    FreeIntoIsSeparate(fl, k, b, Without(live, j));
    FreeIntoKeepsUnits(fl, k, b);
    UnitsSplit(live, j);
    UnitsConcat(live[..j], live[j+1..]);
    var m := FreeIntoHasRoom(fl, k, b);
  }

  // ---------- the header words ----------

  /** The memory after the assignments of `free` for gap `k`. */
  ghost function FreeWrites(mem: map<int, Header>, fl: seq<Blk>, k: nat, b: Blk): map<int, Header>
    requires k < |fl|
  {
    var next := NextIndex(|fl|, k);
    var h := if b.addr + b.size == fl[next].addr then Header(fl[NextIndex(|fl|, next)].addr, b.size + fl[next].size)
             else Header(fl[next].addr, b.size);
    if fl[k].addr + fl[k].size == b.addr then mem[b.addr := h][fl[k].addr := Header(h.ptr, fl[k].size + h.size)]
    else mem[b.addr := h][fl[k].addr := Header(b.addr, fl[k].size)]
  }

  ghost predicate AddrsDistinct(fl: seq<Blk>) {
    forall i, j :: 0 <= i < j < |fl| ==> fl[i].addr != fl[j].addr
  }

  lemma {:induction false} AddrsIncrease(fl: seq<Blk>, lo: nat, hi: nat, i: nat, j: nat)
    requires SortedExcept(fl, lo, hi) && i < j < |fl| && fl[0].addr < fl[1].addr
    ensures fl[i].addr < fl[j].addr
    decreases j
  {
    assert Before(fl, j - 1, lo, hi);
    if i < j - 1 {
      AddrsIncrease(fl, lo, hi, i, j - 1);
    }
  }

  ghost function InsertWrites(mem: map<int, Header>, fl: seq<Blk>, k: nat, b: Blk): map<int, Header>
    requires k < |fl|
  {
    mem[b.addr := Header(fl[NextIndex(|fl|, k)].addr, b.size)][fl[k].addr := Header(b.addr, fl[k].size)]
  }

  ghost function MergeWrites(mem: map<int, Header>, fl: seq<Blk>, i: nat): map<int, Header> {
    if i + 1 < |fl| && fl[i].addr + fl[i].size == fl[i+1].addr
    then mem[fl[i].addr := Header(fl[NextIndex(|fl|, i + 1)].addr, fl[i].size + fl[i+1].size)]
    else mem
  }

  lemma InsertedCycle(mem: map<int, Header>, fl: seq<Blk>, k: nat, b: Blk)
    requires k < |fl| && IsCycle(mem, fl) && AddrsDistinct(Inserted(fl, k, b))
    ensures IsCycle(InsertWrites(mem, fl, k, b), Inserted(fl, k, b))
  {
    var out, mem' := Inserted(fl, k, b), InsertWrites(mem, fl, k, b);
    forall i: nat | i < |out|
      ensures HeaderAt(mem', out, i)
    {
      assert out[k] == fl[k] && out[k+1] == b;
      if i <= k {
        assert HeaderAt(mem, fl, i);
      } else if i > k + 1 {
        assert HeaderAt(mem, fl, i - 1);
      }
    }
  }

  lemma MergedCycle(mem: map<int, Header>, fl: seq<Blk>, i: nat)
    requires IsCycle(mem, fl) && AddrsDistinct(fl)
    ensures IsCycle(MergeWrites(mem, fl, i), Merged(fl, i))
  {
    var out, mem' := Merged(fl, i), MergeWrites(mem, fl, i);
    if i + 1 < |fl| && fl[i].addr + fl[i].size == fl[i+1].addr {
      forall j: nat | j < |out|
        ensures HeaderAt(mem', out, j)
      {
        if j < i {
          assert HeaderAt(mem, fl, j);
        } else if j > i {
          assert HeaderAt(mem, fl, j + 1);
        }
      }
    }
  }

  lemma SortedIsDistinct(fl: seq<Blk>, lo: nat, hi: nat)
    requires SortedExcept(fl, lo, hi) && (|fl| > 1 ==> fl[0].addr < fl[1].addr)
    ensures AddrsDistinct(fl)
  {
    forall i: nat, j: nat | i < j < |fl|
      ensures fl[i].addr != fl[j].addr
    {
      AddrsIncrease(fl, lo, hi, i, j);
    }
  }

  /** The assignments of `free` amount to putting the block in place and joining it on both sides. */
  lemma FreeWritesInStages(mem: map<int, Header>, fl: seq<Blk>, k: nat, b: Blk)
    requires Sorted(fl) && IsGap(fl, k, b.addr) && b.size >= 1
    ensures var ins := Inserted(fl, k, b);
            MergeWrites(MergeWrites(InsertWrites(mem, fl, k, b), ins, k + 1), Merged(ins, k + 1), k) ==
                FreeWrites(mem, fl, k, b)
  {
    if k > 0 {
      SortedPairs(fl, 0, k);
    }
    var ins, next := Inserted(fl, k, b), NextIndex(|fl|, k);
    var one, m1 := Merged(ins, k + 1), InsertWrites(mem, fl, k, b);
    var meets := k + 1 < |fl| && b.addr + b.size == fl[k+1].addr;
    assert ins[k] == fl[k] && ins[k+1] == b && (k + 1 < |fl| ==> ins[k+2] == fl[k+1]);
    assert meets <==> b.addr + b.size == fl[next].addr;
    var h := if meets then Header(fl[NextIndex(|fl|, next)].addr, b.size + fl[next].size)
        else Header(fl[next].addr, b.size);
    var m2 := MergeWrites(m1, ins, k + 1);
    assert m2 == mem[b.addr := h][fl[k].addr := Header(b.addr, fl[k].size)] by {
      if meets {
        assert NextIndex(|ins|, k + 2) == (if k + 2 < |fl| then k + 3 else 0);
        assert k + 2 < |fl| ==> ins[k+3] == fl[k+2];
        assert m2 == m1[b.addr := h];
      }
    }
    assert one[k] == fl[k] && one[k+1] == Blk(b.addr, h.size);
    assert one[NextIndex(|one|, k + 1)].addr == h.ptr;
  }

  lemma FreeWritesKeepLive(mem: map<int, Header>, fl: seq<Blk>, k: nat, b: Blk, live: seq<Blk>)
    requires Sorted(fl) && k < |fl| && Separate(fl, live) && AllApart(live, b) && b.size >= 1 && LiveHeaders(mem, live)
    ensures SameLive(FreeWrites(mem, fl, k, b), mem, live) && LiveHeaders(FreeWrites(mem, fl, k, b), live)
  {
    forall x | 0 <= x < |live|
      ensures SameUnits(FreeWrites(mem, fl, k, b), mem, live[x]) && live[x].addr != b.addr && live[x].addr != fl[k].addr
    {
      assert Apart(live[x], b) && Apart(fl[k], live[x]);
    }
  }

  lemma FreeWritesCycle(mem: map<int, Header>, fl: seq<Blk>, k: nat, b: Blk)
    requires Sorted(fl) && IsGap(fl, k, b.addr) && IsCycle(mem, fl) && b.size >= 1
    requires Apart(fl[k], b) && (k + 1 < |fl| ==> Apart(fl[k+1], b))
    ensures IsCycle(FreeWrites(mem, fl, k, b), FreeInto(fl, k, b))
  {
    var ins := Inserted(fl, k, b);
    var one := Merged(ins, k + 1);
    InsertedIsSorted(fl, k, b);
    MergedIsSorted(ins, k, k + 1);
    assert 0 < k ==> Before(fl, 0, 0, 0);
    SortedIsDistinct(ins, k, k + 2);
    SortedIsDistinct(one, k, k + 1);
    InsertedCycle(mem, fl, k, b);
    MergedCycle(InsertWrites(mem, fl, k, b), ins, k + 1);
    MergedCycle(MergeWrites(InsertWrites(mem, fl, k, b), ins, k + 1), one, k);
    FreeWritesInStages(mem, fl, k, b);
  }

  // ---------- allocating ----------

  /** The block handed out when free block `j` is large enough: all of it, or its last `n` units. */
  ghost function Taken(fl: seq<Blk>, j: nat, n: nat): Blk
    requires j < |fl| && n <= fl[j].size
  {
    Blk(fl[j].addr + fl[j].size - n, n)
  }

  ghost function TakeFrom(fl: seq<Blk>, j: nat, n: nat): seq<Blk>
    requires j < |fl| && n <= fl[j].size
  {
    if fl[j].size == n then fl[..j] + fl[j+1..] else fl[j := Blk(fl[j].addr, fl[j].size - n)]
  }

  lemma TakeFromIsSorted(fl: seq<Blk>, j: nat, n: nat)
    requires Sorted(fl) && j < |fl| && 1 <= n <= fl[j].size
    ensures Sorted(TakeFrom(fl, j, n)) && TakeFrom(fl, j, n)[0] == fl[0]
    ensures AllApart(TakeFrom(fl, j, n), Taken(fl, j, n)) && fl[0].addr < Taken(fl, j, n).addr
  {
    var out, b := TakeFrom(fl, j, n), Taken(fl, j, n);
    SortedPairs(fl, 0, j);
    forall i: nat | i + 1 < |out|
      ensures Before(out, i, 0, 0)
    {
      assert Before(fl, i, 0, 0) && (i + 2 < |fl| ==> Before(fl, i + 1, 0, 0));
    }
    forall i: nat | i < |out|
      ensures Apart(out[i], b)
    {
      if i < j {
        SortedPairs(fl, i, j);
      } else if fl[j].size == n {
        SortedPairs(fl, j, i + 1);
      } else if i > j {
        SortedPairs(fl, j, i);
      }
    }
  }

  lemma TakeFromKeepsUnits(fl: seq<Blk>, j: nat, n: nat)
    requires j < |fl| && n <= fl[j].size
    ensures Units(TakeFrom(fl, j, n)) + n == Units(fl)
  {
    var out := TakeFrom(fl, j, n);
    UnitsSplit(fl, j);
    if fl[j].size == n {
      UnitsConcat(fl[..j], fl[j+1..]);
    } else {
      UnitsSplit(out, j);
      assert out[..j] == fl[..j] && out[j+1..] == fl[j+1..];
    }
  }

  lemma TakeFromIsSeparate(fl: seq<Blk>, live: seq<Blk>, j: nat, n: nat)
    requires Sorted(fl) && Separate(fl, live) && j < |fl| && 1 <= n <= fl[j].size
    ensures Separate(TakeFrom(fl, j, n), live + [Taken(fl, j, n)])
  {
    TakeFromIsSorted(fl, j, n);
    var out, b := TakeFrom(fl, j, n), Taken(fl, j, n);
    forall i, x | 0 <= i < |out| && 0 <= x < |live|
      ensures Apart(out[i], live[x])
    {
      assert Apart(fl[i], live[x]) && (i + 1 < |fl| ==> Apart(fl[i+1], live[x]));
    }
    forall x | 0 <= x < |live|
      ensures Apart(live[x], b)
    {
      assert Apart(fl[j], live[x]);
    }
  }

  /** The memory after the assignments of `malloc` for free block `j`; the new header's `ptr` is whatever was there. */
  ghost function TakeWrites(mem: map<int, Header>, fl: seq<Blk>, j: nat, n: nat): map<int, Header>
    requires 0 < j < |fl| && n <= fl[j].size
  {
    if fl[j].size == n then mem[fl[j-1].addr := Header(fl[NextIndex(|fl|, j)].addr, fl[j-1].size)]
    else
      var a := fl[j].addr + fl[j].size - n;
      mem[fl[j].addr := Header(fl[NextIndex(|fl|, j)].addr, fl[j].size - n)]
         [a := Header(if a in mem then mem[a].ptr else NULL, n)]
  }

  lemma TakeWritesCycle(mem: map<int, Header>, fl: seq<Blk>, j: nat, n: nat)
    requires Sorted(fl) && IsCycle(mem, fl) && 0 < j < |fl| && 1 <= n <= fl[j].size
    ensures IsCycle(TakeWrites(mem, fl, j, n), TakeFrom(fl, j, n))
  {
    var out, mem', b := TakeFrom(fl, j, n), TakeWrites(mem, fl, j, n), Taken(fl, j, n);
    TakeFromIsSorted(fl, j, n);
    SortedPairs(fl, 0, 1);
    SortedIsDistinct(fl, 0, 0);
    forall i: nat | i < |out|
      ensures HeaderAt(mem', out, i)
    {
      assert HeaderAt(mem, fl, i) && (i + 1 < |fl| ==> HeaderAt(mem, fl, i + 1));
      assert fl[j].size != n ==> Apart(out[i], b);
    }
  }

  lemma TakeWritesKeepLive(mem: map<int, Header>, fl: seq<Blk>, j: nat, n: nat, live: seq<Blk>)
    requires Sorted(fl) && IsCycle(mem, fl) && Separate(fl, live) && LiveHeaders(mem, live) && 0 < j < |fl| &&
              1 <= n <= fl[j].size
    ensures SameLive(TakeWrites(mem, fl, j, n), mem, live)
    ensures LiveHeaders(TakeWrites(mem, fl, j, n), live + [Taken(fl, j, n)])
  {
    assert HeaderAt(mem, fl, j);
    SortedPairs(fl, j - 1, j);
    forall x | 0 <= x < |live|
      ensures SameUnits(TakeWrites(mem, fl, j, n), mem, live[x]) && live[x].addr != Taken(fl, j, n).addr
    {
      assert Apart(fl[j], live[x]) && Apart(fl[j-1], live[x]);
    }
  }

  lemma TakeFromIsBelow(fl: seq<Blk>, j: nat, n: nat, brk: int)
    requires AllBelow(fl, brk) && j < |fl| && n <= fl[j].size
    ensures AllBelow(TakeFrom(fl, j, n), brk) && Taken(fl, j, n).addr + n <= brk
  {
  }

  lemma GrownIsSeparate(fl: seq<Blk>, live: seq<Blk>, b: Blk, brk: int)
    requires Sorted(fl) && Separate(fl, live) && AllBelow(fl, brk) && AllBelow(live, brk) &&
              b.addr >= brk > fl[0].addr && b.size >= 1
    ensures Separate(fl, live + [b]) && forall i :: 0 <= i < |fl| ==> fl[i].addr != b.addr
  {
    forall i: nat | 0 < i < |fl|
      ensures fl[i].addr < brk
    {
      assert fl[i].size >= 1;
    }
  }

  lemma LiveGrows(live: seq<Blk>, b: Blk, brk: int)
    requires AllBelow(live, brk) && b.addr + b.size <= brk
    ensures AllBelow(live + [b], brk) && Units(live + [b]) == Units(live) + b.size
  {
    UnitsConcat(live, [b]);
  }

  /** How far block `m` is ahead of block `i` on the way round the cycle. */
  function Ahead(n: nat, i: nat, m: nat): nat
    requires i < n && m < n
  {
    if i <= m then m - i else m - i + n
  }

  /** One step round the cycle comes nearer to what is ahead. */
  lemma NextStep(n: nat, i: nat, f: nat, m: nat)
    requires i < n && f < n
    ensures var j := NextIndex(n, i); j < n && i == if j > 0 then j - 1 else n - 1
    ensures i != f ==> Ahead(n, NextIndex(n, i), f) < Ahead(n, i, f)
    ensures m < n && i != m && (i == f || Ahead(n, i, m) <= Ahead(n, i, f)) ==>
              Ahead(n, NextIndex(n, i), m) <= Ahead(n, NextIndex(n, i), f)
    ensures m < n && Ahead(n, i, m) <= Ahead(n, i, f) && i == f ==> m == i
    ensures m < n && i == f ==> Ahead(n, NextIndex(n, i), m) <= Ahead(n, NextIndex(n, i), f)
  {
  }

  /** The blocks after `f` and before `i`, going round, have fewer than `n` units. */
  ghost predicate TooSmall(fl: seq<Blk>, f: nat, i: nat, n: nat)
    requires f < |fl| && i < |fl|
  {
    var s := NextIndex(|fl|, f);
    forall x :: 0 <= x < |fl| && Ahead(|fl|, s, x) < Ahead(|fl|, s, i) ==> fl[x].size < n
  }

  /** Block `i` is the first with `n` units after the one at `start`, going round. */
  ghost predicate FirstFit(fl: seq<Blk>, start: int, i: nat, n: nat) {
    i < |fl| && fl[i].size >= n && exists f: nat :: f < |fl| && fl[f].addr == start && TooSmall(fl, f, i, n)
  }

  lemma NothingScanned(fl: seq<Blk>, f: nat, n: nat)
    requires f < |fl|
    ensures TooSmall(fl, f, NextIndex(|fl|, f), n)
  {
  }

  lemma TooSmallGrows(fl: seq<Blk>, f: nat, i: nat, n: nat)
    requires f < |fl| && i < |fl| && fl[i].size < n
    ensures TooSmall(fl, f, i, n) && i != f ==> TooSmall(fl, f, NextIndex(|fl|, i), n)
    ensures TooSmall(fl, f, i, n) && i == f ==> forall x :: 0 <= x < |fl| ==> fl[x].size < n
  {
  }

  /** The test that ends the search in `free`. */
  predicate StopsAt(a: int, p: int, next: int) {
    (a > p && a < next) || (p >= next && (a > p || a < next))
  }

  /** The search stops at the gap where the block belongs and nowhere else. */
  lemma StopsAtGapOnly(fl: seq<Blk>, k: nat, a: int, i: nat)
    requires Sorted(fl) && IsGap(fl, k, a) && i < |fl| && fl[0].addr < a
    ensures StopsAt(a, fl[i].addr, fl[NextIndex(|fl|, i)].addr) <==> i == k
  {
    forall x: nat, y: nat | x < y < |fl|
      ensures fl[x].addr + fl[x].size < fl[y].addr
    {
      SortedPairs(fl, x, y);
    }
  }

  class Heap {
    const base: int
    var mem: map<int, Header>
    var freep: int
    // The end of the process's memory, moved by sbrk.
    var brk: int
    // The free list from `base` on, and the blocks handed out and not yet freed.
    ghost var fl: seq<Blk>
    ghost var live: seq<Blk>
    // All units sbrk has returned.
    ghost var obtained: nat

    ghost predicate InUse()
      reads this
    {
      && Sorted(fl) && fl[0].addr == base
      && IsCycle(mem, fl)
      && (exists i: nat :: i < |fl| && fl[i].addr == freep)
      && AllBelow(fl, brk)
    }

    ghost predicate Valid()
      reads this
    {
      && 0 < base < brk
      && (freep == NULL ==> fl == [] && live == [])
      && (freep != NULL ==> InUse())
      && Separate(fl, live) && LiveHeaders(mem, live)
      && AllBelow(live, brk)
      && Units(fl) + Units(live) == obtained
    }

    constructor (base: int, brk: int)
      requires 0 < base < brk
      ensures Valid() && live == [] && obtained == 0
    {
      this.base, this.brk := base, brk;
      mem, freep, fl, live, obtained := map[], NULL, [], [], 0;
    }

    /** The program writes into a block it has been given, beside the header. */
    method Store(ghost j: nat, u: int, h: Header)
      requires Valid() && j < |live| && live[j].addr < u < live[j].addr + live[j].size
      modifies this`mem
      ensures Valid() && mem == old(mem)[u := h]
    {
      mem := mem[u := h];
      if freep != NULL {
        forall i: nat | i < |fl|
          ensures HeaderAt(mem, fl, i)
        {
          assert old(HeaderAt(mem, fl, i)) && Apart(fl[i], live[j]);
        }
      }
      forall k | 0 <= k < |live|
        ensures live[k].addr in mem && mem[live[k].addr].size == live[k].size
      {
        assert k < j ==> Apart(live[k], live[j]);
        assert j < k ==> Apart(live[j], live[k]);
      }
    }

    /** The search of `free` for the place of `bp`, from `freep` on. */
    method FindGap(bp: int) returns (p: int, ghost k: nat)
      requires freep != NULL && InUse() && base < bp && forall i :: 0 <= i < |fl| ==> fl[i].addr != bp
      ensures IsGap(fl, k, bp) && p == fl[k].addr
    {
      k := GapExists(fl, bp, 0);
      ghost var i: nat :| i < |fl| && fl[i].addr == freep;
      p := freep;
      StopsAtGapOnly(fl, k, bp, i);
      assert HeaderAt(mem, fl, i);
      while !StopsAt(bp, p, mem[p].ptr)
        invariant i < |fl| && p == fl[i].addr && HeaderAt(mem, fl, i)
        invariant StopsAt(bp, p, mem[p].ptr) <==> i == k
        decreases Ahead(|fl|, i, k)
      {
        p := mem[p].ptr;
        i := NextIndex(|fl|, i);
        StopsAtGapOnly(fl, k, bp, i);
        assert HeaderAt(mem, fl, i);
      }
    }

    /** The assignments of `free` to the headers at `bp` and `p`. */
    method LinkIn(bp: int, p: int, ghost k: nat, ghost b: Blk)
      requires IsCycle(mem, fl) && k < |fl| && p == fl[k].addr && bp == b.addr != p
      requires bp in mem && mem[bp].size == b.size && forall i :: 0 <= i < |fl| ==> fl[i].addr != bp
      modifies this`mem
      ensures mem == FreeWrites(old(mem), fl, k, b)
    {
      assert HeaderAt(mem, fl, k) && HeaderAt(mem, fl, NextIndex(|fl|, k));
      var next := mem[p].ptr;
      if bp + mem[bp].size == next {
        mem := mem[bp := Header(mem[next].ptr, mem[bp].size + mem[next].size)];
      } else {
        mem := mem[bp := Header(next, mem[bp].size)];
      }
      if p + mem[p].size == bp {
        mem := mem[p := Header(mem[bp].ptr, mem[p].size + mem[bp].size)];
      } else {
        mem := mem[p := Header(bp, mem[p].size)];
      }
    }

    lemma FreeingPreconditions(j: nat)
      requires Valid() && j < |live|
      ensures freep != NULL && base < live[j].addr && live[j].size >= 1
      ensures live[j].addr in mem && mem[live[j].addr].size == live[j].size
      ensures forall i :: 0 <= i < |fl| ==> fl[i].addr != live[j].addr && Apart(fl[i], live[j])
      ensures |fl| >= 1 && fl[0].addr == base && Sorted(fl)
      ensures forall i :: 0 <= i < |fl| ==> base <= fl[i].addr
    {
      forall i: nat | 0 < i < |fl|
        ensures base <= fl[i].addr
      {
        SortedPairs(fl, 0, i);
      }
      forall i | 0 <= i < |fl|
        ensures fl[i].addr != live[j].addr && Apart(fl[i], live[j])
      {
        assert Apart(fl[i], live[j]);
      }
    }

    /** `free`: the block goes back to the free list, joined with the free blocks it touches, and no other block in use
        loses a byte. */
    method Free(ap: int, ghost j: nat) returns (ghost k: nat)
      requires Valid() && j < |live| && ap == live[j].addr + 1
      modifies this`mem, this`freep, this`fl, this`live
      ensures Valid() && freep != NULL
      ensures live == Without(old(live), j) && SameLive(mem, old(mem), live)
      ensures k < |old(fl)| && fl == FreeInto(old(fl), k, old(live[j])) && freep == old(fl[k].addr)
    {
      hide SortedExcept, Separate, FreeInto, FreeWrites, IsCycle, SameLive, AllBelow;
      var bp := ap - 1;
      ghost var b := live[j];
      FreeingPreconditions(j);
      WithoutIsSeparate(fl, live, j);
      var p;
      p, k := FindGap(bp);
      LinkIn(bp, p, k, b);
      freep := p;
      FreeWritesCycle(old(mem), old(fl), k, b);
      FreedLists(fl, live, k, j, brk);
      FreeWritesKeepLive(old(mem), fl, k, b, Without(live, j));
      fl, live := FreeInto(fl, k, b), Without(live, j);
      assert fl[k].addr == freep;
    }

    /** Takes `units` units from sbrk as a block in use; `gap` units may have gone to other callers of sbrk before. */
    method Grow(units: nat, gap: nat) returns (hp: int)
      requires Valid() && freep != NULL && units >= 1
      modifies this`mem, this`brk, this`live, this`obtained
      ensures Valid() && live == old(live) + [Blk(hp, units)] && SameLive(mem, old(mem), old(live))
      ensures hp == old(brk) + gap && brk == hp + units && obtained == old(obtained) + units
    {
      hide Separate, SortedExcept, IsCycle, LiveHeaders, AllBelow, SameLive;
      hp := brk + gap;
      ghost var b := Blk(hp, units);
      HeaderOfGrown(hp, units);
      LiveGrows(live, b, hp + units);
      GrownIsSeparate(fl, live, b, brk);
      brk := hp + units;
      mem := mem[hp := Header(if hp in mem then mem[hp].ptr else NULL, units)];
      obtained := obtained + units;
      live := live + [b];
    }

    /** A header at or above the break is none of the blocks there are. */
    lemma HeaderOfGrown(hp: int, units: nat)
      requires Valid() && freep != NULL && units >= 1 && hp >= brk
      ensures var now := mem[hp := Header(if hp in mem then mem[hp].ptr else NULL, units)];
        && IsCycle(now, fl) && LiveHeaders(now, live + [Blk(hp, units)]) && SameLive(now, mem, live)
        && AllBelow(fl, hp + units) && AllBelow(live, hp + units)
    {
      var now := mem[hp := Header(if hp in mem then mem[hp].ptr else NULL, units)];
      forall i: nat | i < |fl|
        ensures HeaderAt(now, fl, i)
      {
        assert HeaderAt(mem, fl, i);
        if i > 0 {
          SortedPairs(fl, 0, i);
        }
      }
    }

    /** `morecore`. */
    method Morecore(nu: nat, sbrkOk: bool, gap: nat) returns (p: int, ghost m: nat)
      requires Valid() && freep != NULL
      modifies this
      ensures Valid() && freep != NULL && live == old(live)
      ensures SameLive(mem, old(mem), live)
      ensures !sbrkOk ==> p == NULL && unchanged(this)
      ensures sbrkOk ==> p == freep && m < |fl| && nu <= fl[m].size
      ensures sbrkOk ==> var got := if nu < MIN_UNITS then MIN_UNITS else nu;
                           obtained == old(obtained) + got && brk == old(brk) + gap + got
    {
      var units := if nu < MIN_UNITS then MIN_UNITS else nu;
      if !sbrkOk {
        return NULL, 0;
      }
      hide Separate, FreeInto, IsCycle, InUse, LiveHeaders, AllBelow;
      var hp := Grow(units, gap);
      ghost var grown, was := mem, fl;
      ghost var k := Free(hp + 1, |live| - 1);
      assert live == old(live);
      m := FreeIntoHasRoom(was, k, Blk(hp, units));
      forall x | 0 <= x < |live|
        ensures SameUnits(mem, old(mem), live[x])
      {
        assert SameUnits(mem, grown, live[x]);
      }
      p := freep;
    }

    /** What `malloc` does once it has found free block `i` large enough, `prevp` the block before it. */
    method TakeBlock(p: int, prevp: int, nunits: nat, ghost i: nat) returns (ap: int)
      requires Valid() && freep != NULL && 0 < i < |fl| && p == fl[i].addr && prevp == fl[i-1].addr &&
                1 <= nunits <= fl[i].size
      modifies this`mem, this`freep, this`fl, this`live
      ensures Valid() && freep != NULL
      ensures SameLive(mem, old(mem), old(live))
      ensures ap == Taken(old(fl), i, nunits).addr + 1 && ap != NULL
      ensures live == old(live) + [Taken(old(fl), i, nunits)] && fl == TakeFrom(old(fl), i, nunits)
    {
      hide SortedExcept, Separate, IsCycle, SameLive, LiveHeaders, AllBelow, TakeFrom, TakeWrites;
      ghost var b := Taken(fl, i, nunits);
      AddrsFromBase(i);
      TakeWritesCycle(mem, fl, i, nunits);
      TakeWritesKeepLive(mem, fl, i, nunits, live);
      TakeFromIsSorted(fl, i, nunits);
      TakeFromIsSeparate(fl, live, i, nunits);
      TakeFromIsBelow(fl, i, nunits, brk);
      TakeFromKeepsUnits(fl, i, nunits);
      LiveGrows(live, b, brk);
      var q := CutHeader(p, prevp, nunits, i);
      freep := prevp;
      ap := q + 1;
      fl, live := TakeFrom(fl, i, nunits), live + [b];
      assert fl[i-1].addr == freep;
    }

    lemma DistinctAddrs()
      requires InUse()
      ensures AddrsDistinct(fl) && |fl| >= 1 && fl[0].size == 0
    {
      assert |fl| > 1 ==> Before(fl, 0, 0, 0);
      SortedIsDistinct(fl, 0, 0);
    }

    lemma AddrsFromBase(i: nat)
      requires InUse() && base > 0 && 0 < i < |fl|
      ensures 0 < base <= fl[i-1].addr < fl[i].addr
      ensures forall n: nat :: 1 <= n <= fl[i].size ==> i <= |TakeFrom(fl, i, n)| && TakeFrom(fl, i, n)[i-1] == fl[i-1]
    {
      SortedPairs(fl, i - 1, i);
      if i > 1 {
        SortedPairs(fl, 0, i - 1);
      }
    }

    /** The assignments of `malloc` to the headers: unlink the block, or cut its tail off. */
    method CutHeader(p: int, prevp: int, nunits: nat, ghost i: nat) returns (q: int)
      requires IsCycle(mem, fl) && 0 < i < |fl| && p == fl[i].addr && prevp == fl[i-1].addr && 1 <= nunits <= fl[i].size
      modifies this`mem
      ensures mem == TakeWrites(old(mem), fl, i, nunits) && q == Taken(fl, i, nunits).addr
    {
      assert HeaderAt(mem, fl, i) && HeaderAt(mem, fl, i - 1);
      q := p;
      if mem[p].size == nunits {
        mem := mem[prevp := Header(mem[p].ptr, mem[prevp].size)];
      } else {
        mem := mem[p := Header(mem[p].ptr, mem[p].size - nunits)];
        q := p + mem[p].size;
        mem := mem[q := Header(if q in mem then mem[q].ptr else NULL, nunits)];
      }
    }

    /** The 32-bit arithmetic of `malloc`: the units it looks for, one of them for the header. */
    static function UnitsFor(nbytes: nat): (n: nat)
      ensures n >= 1
    {
      (nbytes + HEADER_SIZE - 1) % 0x1_0000_0000 / HEADER_SIZE + 1
    }

    /** They hold the bytes asked for exactly when the sum does not wrap around, and then one unit less would not. */
    static lemma UnitsHoldExactly(nbytes: nat)
      requires nbytes < 0x1_0000_0000
      ensures (UnitsFor(nbytes) - 1) * HEADER_SIZE >= nbytes <==> nbytes + HEADER_SIZE - 1 < 0x1_0000_0000
      ensures nbytes == 0 || nbytes + HEADER_SIZE - 1 >= 0x1_0000_0000 ==> UnitsFor(nbytes) == 1
      ensures 0 < nbytes && nbytes + HEADER_SIZE - 1 < 0x1_0000_0000 ==> (UnitsFor(nbytes) - 2) * HEADER_SIZE < nbytes
    {
    }

    /** `malloc`: a block that no other block in use shares, or nothing when no free block is large enough and sbrk
        refuses. It has room for `nbytes` bytes exactly when the rounding up does not wrap around, and then no unit to
        spare. sbrk is asked exactly when no free block is large enough, and once. The bytes of the blocks in use are
        left alone. */
    method Malloc(nbytes: nat, sbrkOk: bool, gap: nat) returns (ap: int)
      requires Valid() && nbytes < 0x1_0000_0000
      modifies this
      ensures Valid() && freep != NULL
      ensures SameLive(mem, old(mem), old(live))
      ensures var nunits := UnitsFor(nbytes);
              && ((nunits - 1) * 8 >= nbytes <==> nbytes + 7 < 0x1_0000_0000)
              && (if nbytes == 0 || nbytes + 7 >= 0x1_0000_0000 then nunits == 1 else (nunits - 2) * 8 < nbytes)
              && Served(old(fl), old(freep), old(brk), old(obtained), nunits, sbrkOk, ap, brk, obtained)
              && (ap != NULL ==> live == old(live) + [Blk(ap - 1, nunits)])
              && (ap == NULL ==> live == old(live) && !sbrkOk && brk == old(brk) && obtained == old(obtained))
              && (ap == NULL ==> forall i :: 0 <= i < |fl| ==> fl[i].size < nunits)
    {
      var nunits := UnitsFor(nbytes);
      UnitsHoldExactly(nbytes);
      if freep == NULL {
        mem := mem[base := Header(base, 0)];
        freep := base;
        fl := [Blk(base, 0)];
        assert fl[0].addr == freep && HeaderAt(mem, fl, 0) && fl[1..] == [];
      }
      ap := Search(nunits, sbrkOk, gap);
    }

    /** Where the last `nunits` units of a block start, past the header. */
    static function Tail(b: Blk, nunits: nat): int {
      b.addr + b.size - nunits + 1
    }

    /** Some free block has `nunits` units. */
    static ghost predicate HasFit(fl: seq<Blk>, nunits: nat) {
      exists i: nat :: i < |fl| && fl[i].size >= nunits
    }

    /** Where the block at `ap` comes from: the first free block that is large enough, without a word to sbrk; or, when
    there is none, what sbrk gives, at least 4096 units; or nothing when it refuses. */
    static ghost predicate Served(fl: seq<Blk>, start: int, brk: int, obtained: int, nunits: nat, sbrkOk: bool, ap: int,
                                  brk': int, obtained': int) {
      if HasFit(fl, nunits) then
        && ap != NULL && brk' == brk && obtained' == obtained
        && exists i: nat :: FirstFit(fl, start, i, nunits) && ap == Tail(fl[i], nunits)
      else
        && (ap != NULL <==> sbrkOk)
        && (!sbrkOk ==> brk' == brk && obtained' == obtained)
        && (sbrkOk ==> obtained' == obtained + if nunits < 4096 then 4096 else nunits)
    }

    static lemma FitIsFound(fl: seq<Blk>, start: int, f: nat, i: nat, n: nat, brk: int, obtained: int, sbrkOk: bool)
      requires f < |fl| && fl[f].addr == start && i < |fl| && TooSmall(fl, f, i, n) && fl[i].size >= n
      ensures Tail(fl[i], n) != NULL ==> Served(fl, start, brk, obtained, n, sbrkOk, Tail(fl[i], n), brk, obtained)
    {
      assert FirstFit(fl, start, i, n);
    }

    static lemma GrownServes(fl: seq<Blk>, start: int, brk: int, obtained: int, n: nat, ap: int, brk': int,
                             obtained': int)
      ensures !HasFit(fl, n) && ap != NULL && obtained' == obtained + (if n < MIN_UNITS then MIN_UNITS else n) ==>
                Served(fl, start, brk, obtained, n, true, ap, brk', obtained')
    {
    }

    static lemma NoFitThere(fl: seq<Blk>, start: int, brk: int, obtained: int, n: nat)
      ensures (forall x :: 0 <= x < |fl| ==> fl[x].size < n) ==>
                !HasFit(fl, n) && Served(fl, start, brk, obtained, n, false, NULL, brk, obtained)
    {
    }

    static lemma TakenIsTail(fl: seq<Blk>, i: nat, n: nat)
      requires i < |fl| && n <= fl[i].size
      ensures Taken(fl, i, n) == Blk(Tail(fl[i], n) - 1, n)
    {
    }

    /** What the loop of `malloc` knows of the free list and of the header of block `i` in it. */
    lemma FreeListAt(i: nat)
      requires Valid() && freep != NULL && i < |fl|
      ensures fl[i].addr in mem && mem[fl[i].addr] == Header(fl[NextIndex(|fl|, i)].addr, fl[i].size)
      ensures AddrsDistinct(fl) && |fl| >= 1 && fl[0].size == 0 && base > 0
    {
      assert HeaderAt(mem, fl, i);
      DistinctAddrs();
    }

    /** The block `freep` points to. */
    lemma FreepIsListed() returns (f: nat)
      requires Valid() && freep != NULL
      ensures f < |fl| && fl[f].addr == freep
    {
      f :| f < |fl| && fl[f].addr == freep;
    }

    /** The loop of `malloc`. It ends: one trip round the list without success calls `morecore`, and after that a block
        that is large enough lies ahead before `freep` comes round again. */
    method Search(nunits: nat, sbrkOk: bool, gap: nat) returns (ap: int)
      requires Valid() && freep != NULL && nunits >= 1
      modifies this
      ensures Valid() && freep != NULL
      ensures SameLive(mem, old(mem), old(live))
      ensures ap != NULL ==> live == old(live) + [Blk(ap - 1, nunits)]
      ensures ap == NULL ==> live == old(live) && !sbrkOk && brk == old(brk) && obtained == old(obtained)
      ensures ap == NULL ==> forall i :: 0 <= i < |fl| ==> fl[i].size < nunits
      ensures Served(old(fl), old(freep), old(brk), old(obtained), nunits, sbrkOk, ap, brk, obtained)
    {
      hide Valid, InUse, SameLive, TooSmall, HasFit, FirstFit, Taken, Served, Ahead, NextIndex;
      NothingTouched(mem, live);
      ghost var f: nat := FreepIsListed();
      var prevp := freep;
      FreeListAt(f);
      ghost var i: nat := NextIndex(|fl|, f);
      var p := mem[prevp].ptr;
      ghost var grown := false;
      ghost var m: nat := 0;
      NothingScanned(fl, f, nunits);
      NextStep(|fl|, f, f, f);
      while true
        invariant Valid() && freep != NULL && live == old(live) && SameLive(mem, old(mem), live)
        invariant f < |fl| && fl[f].addr == freep && i < |fl| && p == fl[i].addr
        invariant prevp == fl[if i > 0 then i - 1 else |fl| - 1].addr
        invariant grown ==> m < |fl| && nunits <= fl[m].size && Ahead(|fl|, i, m) <= Ahead(|fl|, i, f)
        invariant !grown ==> brk == old(brk) && obtained == old(obtained) && fl == old(fl) && freep == old(freep)
        invariant grown ==> sbrkOk && !HasFit(old(fl), nunits)
        invariant grown ==> obtained == old(obtained) + if nunits < MIN_UNITS then MIN_UNITS else nunits
        invariant !grown ==> TooSmall(fl, f, i, nunits)
        decreases if grown then 0 else 1, Ahead(|fl|, i, f)
      {
        FreeListAt(i);
        if mem[p].size >= nunits {
          ghost var before := mem;
          if !grown {
            FitIsFound(fl, freep, f, i, nunits, brk, obtained, sbrkOk);
          }
          TakenIsTail(fl, i, nunits);
          ap := TakeBlock(p, prevp, nunits, i);
          GrownServes(old(fl), old(freep), old(brk), old(obtained), nunits, ap, brk, obtained);
          SameLiveTwice(mem, before, old(mem), old(live));
          return;
        }
        TooSmallGrows(fl, f, i, nunits);
        NextStep(|fl|, i, f, m);
        if p == freep {
          NoFitThere(fl, freep, brk, obtained, nunits);
          ghost var before := mem;
          p, m := Morecore(nunits, sbrkOk, gap);
          SameLiveTwice(mem, before, old(mem), live);
          if p == NULL {
            return NULL;
          }
          grown := true;
          f := FreepIsListed();
          i := f;
        }
        prevp := p;
        FreeListAt(i);
        NextStep(|fl|, i, f, m);
        p := mem[p].ptr;
        i := NextIndex(|fl|, i);
      }
    }
  }
}
