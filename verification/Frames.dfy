/** Physical pages and what they are used for: free, page directory, page table, user page, or held by the kernel.

A two-level page table lives in pages like any other. The ghost map from pages to uses is right when every present entry
of a directory names a page used as that table, every present user entry of a table names a page used for that address,
and each page the allocator manages is either free or used, never both.
 */
module Frames {

  const PGSIZE := 4096
  const NENTRIES := 1024

  /** PHYSTOP in pages, and the number of directory entries for user addresses. */
  const TOP := 0xE000
  const USER := 512

  /** A page is 1024 words. */
  type Page = s: seq<nat> | |s| == NENTRIES witness seq(NENTRIES, _ => 0)

  // ----- entries: a page number and twelve flag bits, the lowest of which is "present"

  predicate Present(w: nat) {
    w % 2 == 1
  }

  function FrameOf(w: nat): nat {
    w / PGSIZE
  }

  function FlagsOf(w: nat): nat {
    w % PGSIZE
  }

  /** `perm | PTE_P` */
  function WithP(perm: nat): (r: nat)
    requires perm < PGSIZE
    ensures r % 2 == 1 && r < PGSIZE
  {
    if perm % 2 == 1 then perm else perm + 1
  }

  /** `pa | perm | PTE_P` */
  function MakePte(f: nat, perm: nat): (w: nat)
    requires perm < PGSIZE
    ensures Present(w) && FrameOf(w) == f && FlagsOf(w) == WithP(perm)
  {
    PteParts(f, WithP(perm));
    f * PGSIZE + WithP(perm)
  }

  lemma PteParts(f: nat, a: nat)
    requires a < PGSIZE
    ensures (f * PGSIZE + a) / PGSIZE == f && (f * PGSIZE + a) % PGSIZE == a && (f * PGSIZE + a) % 2 == a % 2
  {
  }

  // ----- which tables a directory has

  /** How many of the entries from `lo` up to `hi` of a directory have no table. */
  function Absent(dir: Page, lo: nat, hi: nat): (n: nat)
    requires hi <= NENTRIES
    ensures n <= if lo < hi then hi - lo else 0
    decreases hi
  {
    if hi <= lo then 0 else Absent(dir, lo, hi - 1) + if Present(dir[hi - 1]) then 0 else 1
  }

  /** From `was` to `now` the entries from `lo` up to `hi` got tables where they had none. */
  ghost predicate Adds(was: Page, now: Page, lo: nat, hi: nat) {
    forall x: nat :: x < NENTRIES ==> (Present(now[x]) <==> Present(was[x]) || lo <= x < hi)
  }

  lemma {:induction false} AbsentGrows(dir: Page, lo: nat, mid: nat, hi: nat)
    requires lo <= mid <= hi <= NENTRIES
    ensures Absent(dir, lo, mid) <= Absent(dir, lo, hi)
    decreases hi
  {
    if mid < hi {
      AbsentGrows(dir, lo, mid, hi - 1);
    }
  }

  /** When the entries from `lo` on have tables up to `mid` and no further, those from there on lack them. */
  lemma {:induction false} AbsentAbove(dir: Page, lo: nat, mid: nat, hi: nat)
    requires lo <= mid <= hi <= NENTRIES
    requires forall x: nat :: lo <= x < hi ==> (Present(dir[x]) <==> x < mid)
    ensures Absent(dir, lo, hi) == hi - mid
    decreases hi
  {
    if lo < hi {
      if mid < hi {
        AbsentAbove(dir, lo, mid, hi - 1);
      } else {
        AbsentAbove(dir, lo, hi - 1, hi - 1);
      }
    }
  }

  // ----- uses

  /** `User` is the page of address `(x * 1024 + i) * 4096` in directory `d`; `Kernel` is held by kernel code. */
  datatype Use = Dir | Table(d: nat, x: nat) | User(d: nat, x: nat, i: nat) | Kernel

  /** The pages from `lo` up are managed. `free` is the free list from its head. */
  datatype Phys = Phys(lo: nat, mem: seq<Page>, free: seq<nat>, owner: map<nat, Use>)

  predicate IsDir(p: Phys, d: nat) {
    d in p.owner && p.owner[d] == Dir && d < |p.mem|
  }

  /** Entry `i` of the table that entry `x` of directory `d` names; 0 when there is no such table. */
  function Pte(mem: seq<Page>, d: nat, x: nat, i: nat): nat {
    if d < |mem| && x < NENTRIES && i < NENTRIES && Present(mem[d][x]) && FrameOf(mem[d][x]) < |mem|
    then mem[FrameOf(mem[d][x])][i] else 0
  }

  ghost predicate PartOk(p: Phys, f: nat) {
    && (f in p.owner <==> p.lo <= f < TOP && f !in p.free)
    && (f in p.free ==> p.lo <= f < TOP)
  }

  predicate UseOk(p: Phys, f: nat) {
    f in p.owner ==>
      match p.owner[f]
      case Dir => true
      case Table(d, x) => IsDir(p, d) && x < NENTRIES && Present(p.mem[d][x]) && FrameOf(p.mem[d][x]) == f
      case User(d, x, i) =>
        IsDir(p, d) && x < USER && i < NENTRIES && Present(Pte(p.mem, d, x, i)) && FrameOf(Pte(p.mem, d, x, i)) == f
      case Kernel => true
  }

  /** A present directory entry names the page used as that table, and lets the table decide what user code may do: it
  is present, writable and for the user. */
  predicate EntryOk(p: Phys, d: nat, x: nat) {
    IsDir(p, d) && x < NENTRIES && Present(p.mem[d][x]) ==>
      var t := FrameOf(p.mem[d][x]);
      t in p.owner && p.owner[t] == Table(d, x) && FlagsOf(p.mem[d][x]) == 7
  }

  /** A present user entry names the page used for that address. */
  predicate PteOk(p: Phys, d: nat, x: nat, i: nat) {
    IsDir(p, d) && x < USER && i < NENTRIES && Present(Pte(p.mem, d, x, i)) ==>
      var f := FrameOf(Pte(p.mem, d, x, i));
      f in p.owner && p.owner[f] == User(d, x, i)
  }

  ghost predicate Inv(p: Phys) {
    && |p.mem| == TOP && 0 < p.lo
    && (forall f: nat :: PartOk(p, f))
    && (forall f: nat :: UseOk(p, f))
    && (forall d: nat, x: nat :: EntryOk(p, d, x))
    && (forall d: nat, x: nat, i: nat :: PteOk(p, d, x, i))
    && (forall j: nat, k: nat :: j < k < |p.free| ==> p.free[j] != p.free[k])
  }

  predicate UserPageAt(p: Phys, d: nat, x: nat, i: nat, f: nat) {
    IsDir(p, d) && x < USER && i < NENTRIES && Present(Pte(p.mem, d, x, i)) && FrameOf(Pte(p.mem, d, x, i)) == f
  }

  predicate TableAt(p: Phys, d: nat, x: nat, f: nat) {
    IsDir(p, d) && x < NENTRIES && Present(p.mem[d][x]) && FrameOf(p.mem[d][x]) == f
  }

  /** Every managed page has exactly one role: it is on the free list, or has one use. No page is mapped at two user
  addresses or as two tables, nor in both ways. */
  lemma EachPageOnce(p: Phys, f: nat)
    requires Inv(p) && p.lo <= f < TOP
    ensures (f in p.free) != (f in p.owner)
    ensures forall d: nat, x: nat, i: nat, e: nat, y: nat, j: nat ::
              UserPageAt(p, d, x, i, f) && UserPageAt(p, e, y, j, f) ==>
              d == e && x == y && i == j && f in p.owner
    ensures forall d: nat, x: nat, e: nat, y: nat :: TableAt(p, d, x, f) && TableAt(p, e, y, f) ==>
              d == e && x == y && f in p.owner
    ensures forall d: nat, x: nat, i: nat, e: nat, y: nat :: !(UserPageAt(p, d, x, i, f) && TableAt(p, e, y, f))
  {
    assert PartOk(p, f);
    forall d: nat, x: nat, i: nat
      ensures UserPageAt(p, d, x, i, f) ==> f in p.owner && p.owner[f] == User(d, x, i)
    {
      assert PteOk(p, d, x, i);
    }
    forall d: nat, x: nat
      ensures TableAt(p, d, x, f) ==> f in p.owner && p.owner[f] == Table(d, x)
    {
      assert EntryOk(p, d, x);
    }
  }

  /** The table behind a present directory entry is a page of its own. */
  lemma TableIs(p: Phys, d: nat, x: nat)
    requires Inv(p) && IsDir(p, d) && x < NENTRIES && Present(p.mem[d][x])
    ensures var t := FrameOf(p.mem[d][x]);
      p.lo <= t < TOP == |p.mem| && t in p.owner && p.owner[t] == Table(d, x) && t !in p.free
    ensures forall i: nat :: i < NENTRIES ==> Pte(p.mem, d, x, i) == p.mem[FrameOf(p.mem[d][x])][i]
  {
    assert EntryOk(p, d, x);
    assert PartOk(p, FrameOf(p.mem[d][x]));
  }

  lemma OwnedIs(p: Phys, f: nat)
    requires Inv(p) && f in p.owner
    ensures 0 < p.lo <= f < TOP && f !in p.free
  {
    assert PartOk(p, f);
  }

  // ----- keeping what others have

  /** Directories and tables are as before, so all entries are. */
  ghost predicate SameTables(p: Phys, q: Phys) {
    && |q.mem| == |p.mem|
    && forall f: nat :: f in p.owner && (p.owner[f].Dir? || p.owner[f].Table?) && f < |p.mem| ==> q.mem[f] == p.mem[f]
  }

  lemma SamePtes(p: Phys, q: Phys, d: nat, x: nat, i: nat)
    requires Inv(p) && SameTables(p, q) && IsDir(p, d)
    ensures Pte(q.mem, d, x, i) == Pte(p.mem, d, x, i)
  {
    if x < NENTRIES && Present(p.mem[d][x]) {
      TableIs(p, d, x);
    }
  }

  /** A page is taken from the free list, and perhaps written. */
  lemma TakeKeepsInv(p: Phys, q: Phys, f: nat)
    requires Inv(p) && p.free != [] && f == p.free[0]
    requires |q.mem| == |p.mem| && (forall g: nat :: g < |p.mem| && g != f ==> q.mem[g] == p.mem[g])
    requires q == Phys(p.lo, q.mem, p.free[1..], p.owner[f := Kernel])
    ensures Inv(q) && SameTables(p, q) && f !in p.owner
  {
    assert PartOk(p, f);
    forall g: nat
      ensures PartOk(q, g) && UseOk(q, g)
    {
      assert PartOk(p, g) && UseOk(p, g);
      TailOf(p.free, g);
      if g in p.owner {
        UseStays(p, q, g);
      }
    }
    EntriesStay(p, q);
  }

  lemma TailOf(s: seq<nat>, g: nat)
    requires s != [] && forall j: nat, k: nat :: j < k < |s| ==> s[j] != s[k]
    ensures g in s[1..] <==> g in s && g != s[0]
  {
    if g in s && g != s[0] {
      var k :| 0 <= k < |s| && s[k] == g;
      assert s[1..][k - 1] == g;
    }
  }

  /** Uses other than new ones stay right when directories and tables are kept. */
  lemma UseStays(p: Phys, q: Phys, g: nat)
    requires Inv(p) && SameTables(p, q) && g in p.owner && g in q.owner && q.owner[g] == p.owner[g]
    requires forall d: nat :: IsDir(p, d) ==> IsDir(q, d)
    ensures UseOk(q, g)
  {
    assert UseOk(p, g);
    match p.owner[g]
    case User(d, x, i) => SamePtes(p, q, d, x, i);
    case _ =>
  }

  lemma EntriesStay(p: Phys, q: Phys)
    requires Inv(p) && SameTables(p, q)
    requires forall d: nat :: IsDir(q, d) ==> IsDir(p, d)
    requires forall f: nat :: f in p.owner && !p.owner[f].Kernel? ==> f in q.owner && q.owner[f] == p.owner[f]
    ensures forall d: nat, x: nat :: EntryOk(q, d, x)
    ensures forall d: nat, x: nat, i: nat :: PteOk(q, d, x, i)
  {
    forall d: nat, x: nat
      ensures EntryOk(q, d, x)
    {
      assert EntryOk(p, d, x);
    }
    forall d: nat, x: nat, i: nat
      ensures PteOk(q, d, x, i)
    {
      assert PteOk(p, d, x, i);
      if IsDir(q, d) {
        SamePtes(p, q, d, x, i);
      }
    }
  }

  /** A page the kernel holds is given back to the head of the free list, and perhaps written. */
  lemma GiveKeepsInv(p: Phys, q: Phys, f: nat)
    requires Inv(p) && f in p.owner && p.owner[f] == Kernel
    requires |q.mem| == |p.mem| && (forall g: nat :: g < |p.mem| && g != f ==> q.mem[g] == p.mem[g])
    requires q == Phys(p.lo, q.mem, [f] + p.free, p.owner - {f})
    ensures Inv(q) && SameTables(p, q)
  {
    assert PartOk(p, f);
    forall g: nat
      ensures PartOk(q, g) && UseOk(q, g)
    {
      assert PartOk(p, g) && UseOk(p, g);
      assert g in q.free <==> g == f || g in p.free;
      if g in q.owner {
        UseStays(p, q, g);
      }
    }
    EntriesStay(p, q);
  }

  /** A page the kernel holds is written. */
  lemma WriteKeepsInv(p: Phys, q: Phys, f: nat)
    requires Inv(p) && f in p.owner && (p.owner[f].Kernel? || p.owner[f].User?)
    requires |q.mem| == |p.mem| && (forall g: nat :: g < |p.mem| && g != f ==> q.mem[g] == p.mem[g])
    requires q == p.(mem := q.mem)
    ensures Inv(q) && SameTables(p, q)
  {
    forall g: nat
      ensures PartOk(q, g) && UseOk(q, g)
    {
      assert PartOk(p, g) && UseOk(p, g);
      if g in q.owner {
        UseStays(p, q, g);
      }
    }
    EntriesStay(p, q);
  }

  /** No entry of a page is present. */
  predicate Blank(g: Page) {
    forall i: nat :: i < NENTRIES ==> !Present(g[i])
  }

  /** A blank page the kernel holds becomes a directory. */
  lemma DirKeepsInv(p: Phys, q: Phys, d: nat)
    requires Inv(p) && d in p.owner && p.owner[d] == Kernel && d < |p.mem| && Blank(p.mem[d])
    requires q == p.(owner := p.owner[d := Dir])
    ensures Inv(q) && IsDir(q, d)
  {
    OwnedIs(p, d);
    forall g: nat
      ensures PartOk(q, g) && UseOk(q, g)
    {
      assert PartOk(p, g) && UseOk(p, g);
    }
    forall e: nat, x: nat
      ensures EntryOk(q, e, x)
    {
      assert EntryOk(p, e, x);
    }
    forall e: nat, x: nat, i: nat
      ensures PteOk(q, e, x, i)
    {
      assert PteOk(p, e, x, i);
    }
  }

  /** What is mapped at an address: the entry, if it is present. */
  predicate SamePte(p: Phys, q: Phys, d: nat, x: nat, i: nat) {
    || Pte(q.mem, d, x, i) == Pte(p.mem, d, x, i)
    || (!Present(Pte(q.mem, d, x, i)) && !Present(Pte(p.mem, d, x, i)))
  }

  /** A blank page the kernel holds becomes the table of an empty directory entry; no mapping changes. */
  lemma LinkTable(p: Phys, q: Phys, d: nat, x: nat, t: nat, perm: nat)
    requires Inv(p) && IsDir(p, d) && x < NENTRIES && !Present(p.mem[d][x]) && perm < PGSIZE && WithP(perm) == 7
    requires t in p.owner && p.owner[t] == Kernel && t < |p.mem| && Blank(p.mem[t])
    requires q == p.(mem := p.mem[d := p.mem[d][x := MakePte(t, perm)]], owner := p.owner[t := Table(d, x)])
    ensures Inv(q) && forall e: nat, y: nat, i: nat :: IsDir(p, e) ==> SamePte(p, q, e, y, i)
  {
    OwnedIs(p, t);
    OwnedIs(p, d);
    forall e: nat, y: nat, i: nat
      ensures IsDir(p, e) ==> SamePte(p, q, e, y, i)
    {
      if IsDir(p, e) && y < NENTRIES && Present(p.mem[e][y]) {
        TableIs(p, e, y);
      }
    }
    forall g: nat
      ensures PartOk(q, g) && UseOk(q, g)
    {
      assert PartOk(p, g) && UseOk(p, g);
      LinkTableUse(p, q, d, x, t, g);
    }
    forall e: nat, y: nat
      ensures EntryOk(q, e, y)
    {
      assert EntryOk(p, e, y);
    }
    forall e: nat, y: nat, i: nat
      ensures PteOk(q, e, y, i)
    {
      assert PteOk(p, e, y, i);
      assert IsDir(p, e) ==> SamePte(p, q, e, y, i);
    }
  }

  lemma LinkTableUse(p: Phys, q: Phys, d: nat, x: nat, t: nat, g: nat)
    requires IsDir(p, d) && x < NENTRIES && !Present(p.mem[d][x]) && UseOk(p, g)
    requires t in p.owner && p.owner[t] == Kernel && |q.mem| == |p.mem|
    requires q.owner == p.owner[t := Table(d, x)] && Present(q.mem[d][x]) && FrameOf(q.mem[d][x]) == t
    requires forall e: nat, y: nat :: IsDir(p, e) && y < NENTRIES && (e != d || y != x) ==> q.mem[e][y] == p.mem[e][y]
    requires forall e: nat, y: nat, i: nat :: IsDir(p, e) ==> SamePte(p, q, e, y, i)
    ensures UseOk(q, g)
  {
    if g in p.owner && g != t {
      match p.owner[g]
      case User(e, y, i) =>
        assert SamePte(p, q, e, y, i);
      case _ =>
    }
  }

  /** Setting entry `i` of the table at entry `x` of directory `d` sets that mapping alone. */
  lemma PteAfterSet(p: Phys, q: Phys, d: nat, x: nat, i: nat, w: nat, e: nat, y: nat, j: nat)
    requires Inv(p) && IsDir(p, d) && x < NENTRIES && i < NENTRIES && Present(p.mem[d][x]) && IsDir(p, e)
    requires var t := FrameOf(p.mem[d][x]); t < |p.mem| && q.mem == p.mem[t := p.mem[t][i := w]]
    ensures Pte(q.mem, e, y, j) == if e == d && y == x && j == i then w else Pte(p.mem, e, y, j)
  {
    TableIs(p, d, x);
    if y < NENTRIES && Present(p.mem[e][y]) {
      TableIs(p, e, y);
    }
  }

  /** Setting an entry keeps the order of pages when the uses say the same as the entry. */
  lemma SetPteKeepsInv(p: Phys, q: Phys, d: nat, x: nat, i: nat, w: nat)
    requires Inv(p) && IsDir(p, d) && x < NENTRIES && i < NENTRIES && Present(p.mem[d][x])
    requires var t := FrameOf(p.mem[d][x]);
      t < |p.mem| && q == p.(mem := p.mem[t := p.mem[t][i := w]], owner := q.owner)
    requires q.owner.Keys == p.owner.Keys
    requires forall g: nat :: g in p.owner && q.owner[g] != p.owner[g] ==>
               (p.owner[g] == Kernel && q.owner[g] == User(d, x, i)) ||
                   (p.owner[g] == User(d, x, i) && q.owner[g] == Kernel)
    requires x < USER ==> PteOk(q, d, x, i)
    requires forall g: nat :: g in q.owner && q.owner[g] == User(d, x, i) ==> x < USER && Present(w) && FrameOf(w) == g
    ensures Inv(q)
  {
    TableIs(p, d, x);
    forall g: nat
      ensures PartOk(q, g) && UseOk(q, g)
    {
      assert PartOk(p, g) && UseOk(p, g);
      SetPteUse(p, q, d, x, i, w, g);
    }
    forall e: nat, y: nat
      ensures EntryOk(q, e, y)
    {
      assert EntryOk(p, e, y);
    }
    forall e: nat, y: nat, j: nat
      ensures PteOk(q, e, y, j)
    {
      assert PteOk(p, e, y, j);
      if IsDir(q, e) {
        PteAfterSet(p, q, d, x, i, w, e, y, j);
      }
    }
  }

  lemma SetPteUse(p: Phys, q: Phys, d: nat, x: nat, i: nat, w: nat, g: nat)
    requires Inv(p) && IsDir(p, d) && x < NENTRIES && i < NENTRIES && Present(p.mem[d][x])
    requires var t := FrameOf(p.mem[d][x]); t < |p.mem| && q.mem == p.mem[t := p.mem[t][i := w]]
    requires q.owner.Keys == p.owner.Keys
    requires forall h: nat :: h in p.owner && q.owner[h] != p.owner[h] ==>
               (p.owner[h] == Kernel && q.owner[h] == User(d, x, i)) ||
                   (p.owner[h] == User(d, x, i) && q.owner[h] == Kernel)
    requires forall h: nat :: h in q.owner && q.owner[h] == User(d, x, i) ==> x < USER && Present(w) && FrameOf(w) == h
    ensures UseOk(q, g)
  {
    assert UseOk(p, g);
    TableIs(p, d, x);
    if g in q.owner {
      match q.owner[g]
      case User(e, y, j) =>
        PteAfterSet(p, q, d, x, i, w, if IsDir(p, e) then e else d, y, j);
      case _ =>
    }
  }

  // ----- giving up a directory

  /** The directory and its tables become pages the kernel holds. */
  ghost function Detached(owner: map<nat, Use>, d: nat): map<nat, Use> {
    map f: nat | f in owner :: if f == d || (owner[f].Table? && owner[f].d == d) then Kernel else owner[f]
  }

  /** The uses of pages that are not the directory's. */
  ghost function Without(owner: map<nat, Use>, d: nat): map<nat, Use> {
    map f: nat | f in owner && f != d && !(owner[f].Table? && owner[f].d == d) &&
        !(owner[f].User? && owner[f].d == d) :: owner[f]
  }

  /** A directory without user pages can be detached. */
  lemma DetachKeepsInv(p: Phys, q: Phys, d: nat)
    requires Inv(p) && IsDir(p, d) && q == p.(owner := Detached(p.owner, d))
    requires forall x: nat, i: nat :: x < USER && i < NENTRIES ==> !Present(Pte(p.mem, d, x, i))
    ensures Inv(q)
  {
    forall g: nat
      ensures PartOk(q, g) && UseOk(q, g)
    {
      assert PartOk(p, g) && UseOk(p, g);
    }
    forall e: nat, x: nat
      ensures EntryOk(q, e, x)
    {
      assert EntryOk(p, e, x);
    }
    forall e: nat, x: nat, i: nat
      ensures PteOk(q, e, x, i)
    {
      assert PteOk(p, e, x, i);
    }
  }

  // ----- what operations on one directory keep

  /** Mappings of all directories are the same. */
  ghost predicate SameMap(p: Phys, q: Phys) {
    forall e: nat, x: nat, i: nat :: IsDir(p, e) ==> SamePte(p, q, e, x, i)
  }

  /** From `p` to `q` no page lost its use, except those in `but`; no page that is kernel or user data was written;
  what is new are tables of directory `d`. */
  ghost predicate Kept(p: Phys, q: Phys, d: nat, but: set<nat>) {
    && |q.mem| == |p.mem|
    && (forall g: nat :: g in p.owner && g !in but ==> g in q.owner && q.owner[g] == p.owner[g])
    && (forall g: nat :: g in p.owner && g !in but && (p.owner[g].Kernel? || p.owner[g].User?) && g < |p.mem| ==>
         q.mem[g] == p.mem[g])
    && (forall g: nat :: g in q.owner && g !in but && g !in p.owner ==> q.owner[g].Table? && q.owner[g].d == d)
  }

  lemma KeptTwice(p: Phys, q: Phys, r: Phys, d: nat, a: set<nat>, b: set<nat>)
    requires Kept(p, q, d, a) && Kept(q, r, d, b)
    ensures Kept(p, r, d, a + b)
  {
  }

  /** The mapping at one address after pages `f`, `f + 1`, ... were mapped at the `n` addresses from page `v` on. */
  predicate MapAt(p: Phys, q: Phys, d: nat, v: nat, n: nat, f: nat, perm: nat, e: nat, x: nat, i: nat)
    requires perm < PGSIZE
  {
    IsDir(p, e) && x < NENTRIES && i < NENTRIES ==>
      var a := x * NENTRIES + i;
      if e == d && v <= a < v + n then Pte(q.mem, e, x, i) == MakePte(f + (a - v), perm) else SamePte(p, q, e, x, i)
  }

  ghost predicate MapIs(p: Phys, q: Phys, d: nat, v: nat, n: nat, f: nat, perm: nat)
    requires perm < PGSIZE
  {
    forall e: nat, x: nat, i: nat :: MapAt(p, q, d, v, n, f, perm, e, x, i)
  }

  lemma SameMapItself(p: Phys)
    ensures SameMap(p, p)
  {
  }

  lemma MapIsAt(p: Phys, q: Phys, d: nat, v: nat, n: nat, f: nat, perm: nat, e: nat, x: nat, i: nat)
    requires perm < PGSIZE && MapIs(p, q, d, v, n, f, perm)
    ensures MapAt(p, q, d, v, n, f, perm, e, x, i)
  {
  }

  /** What is kept of one page. */
  lemma KeptAt(p: Phys, q: Phys, d: nat, but: set<nat>, g: nat)
    requires Kept(p, q, d, but)
    ensures |q.mem| == |p.mem|
    ensures g in p.owner && g !in but ==> g in q.owner && q.owner[g] == p.owner[g]
    ensures g in p.owner && g !in but && (p.owner[g].Kernel? || p.owner[g].User?) && g < |p.mem| ==>
              q.mem[g] == p.mem[g]
    ensures g in q.owner && g !in but && g !in p.owner ==> q.owner[g].Table? && q.owner[g].d == d
  {
  }

  lemma MapNothing(p: Phys, q: Phys, d: nat, v: nat, f: nat, perm: nat)
    requires perm < PGSIZE && SameMap(p, q)
    ensures MapIs(p, q, d, v, 0, f, perm)
  {
    hide Pte, SamePte;
    forall e: nat, x: nat, i: nat
      ensures MapAt(p, q, d, v, 0, f, perm, e, x, i)
    {
      assert IsDir(p, e) ==> SamePte(p, q, e, x, i);
    }
  }

  lemma MapOneMore(p: Phys, q: Phys, r: Phys, d: nat, v: nat, n: nat, f: nat, perm: nat)
    requires perm < PGSIZE && MapIs(p, q, d, v, n, f, perm) && MapIs(q, r, d, v + n, 1, f + n, perm)
    requires forall e: nat :: IsDir(p, e) ==> IsDir(q, e)
    ensures MapIs(p, r, d, v, n + 1, f, perm)
  {
    hide Pte, MakePte;
    var m := n + 1;
    forall e: nat, x: nat, i: nat
      ensures MapAt(p, r, d, v, m, f, perm, e, x, i)
    {
      assert MapAt(p, q, d, v, n, f, perm, e, x, i) && MapAt(q, r, d, v + n, 1, f + n, perm, e, x, i);
    }
  }


  lemma SameOrAbsent(p: Phys, q: Phys, r: Phys, e: nat, x: nat, i: nat)
    ensures SamePte(p, q, e, x, i) && SamePte(q, r, e, x, i) ==> SamePte(p, r, e, x, i)
    ensures SamePte(q, r, e, x, i) && Present(Pte(q.mem, e, x, i)) ==> Pte(r.mem, e, x, i) == Pte(q.mem, e, x, i)
  {
  }

  lemma SplitPage(v: nat, x: nat, i: nat)
    ensures v == v / NENTRIES * NENTRIES + v % NENTRIES && v % NENTRIES < NENTRIES
    ensures i < NENTRIES && x * NENTRIES + i == v ==> x == v / NENTRIES && i == v % NENTRIES
  {
  }

  // ----- unmapping

  /** The mapping at one address after the user pages from `first` up to `last` were unmapped. */
  predicate UnmapAt(p: Phys, q: Phys, d: nat, first: nat, last: nat, e: nat, x: nat, i: nat) {
    IsDir(p, e) && x < NENTRIES && i < NENTRIES ==>
      if e == d && first <= x * NENTRIES + i < last then !Present(Pte(q.mem, e, x, i)) else SamePte(p, q, e, x, i)
  }

  ghost predicate UnmapIs(p: Phys, q: Phys, d: nat, first: nat, last: nat) {
    forall e: nat, x: nat, i: nat :: UnmapAt(p, q, d, first, last, e, x, i)
  }

  /** A use as a user page of directory `d` in a range of pages. */
  predicate InRange(u: Use, d: nat, first: nat, last: nat) {
    u.User? && u.d == d && first <= u.x * NENTRIES + u.i < last
  }

  ghost function Dropped(owner: map<nat, Use>, d: nat, first: nat, last: nat): map<nat, Use> {
    map g: nat | g in owner && !InRange(owner[g], d, first, last) :: owner[g]
  }

  /** Pages still in use have their contents, but for the tables of `d`. */
  ghost predicate KeepsContents(p: Phys, q: Phys, d: nat) {
    && |q.mem| == |p.mem|
    && forall g: nat :: g in q.owner && g < |p.mem| && !(q.owner[g].Table? && q.owner[g].d == d) ==>
         q.mem[g] == p.mem[g]
  }

  lemma UnmapNothing(p: Phys, d: nat, first: nat)
    ensures UnmapIs(p, p, d, first, first) && Dropped(p.owner, d, first, first) == p.owner && KeepsContents(p, p, d)
  {
  }

  /** Pages without a table are not mapped, so passing over them unmaps nothing. */
  lemma UnmapSkips(p: Phys, q: Phys, d: nat, first: nat, a: nat, b: nat)
    requires Inv(q) && UnmapIs(p, q, d, first, a) && first <= a <= b <= USER * NENTRIES
    requires forall x: nat, i: nat :: i < NENTRIES && a <= x * NENTRIES + i < b ==> !Present(Pte(q.mem, d, x, i))
    ensures UnmapIs(p, q, d, first, b) && Dropped(q.owner, d, a, b) == q.owner
  {
    forall e: nat, x: nat, i: nat
      ensures UnmapAt(p, q, d, first, b, e, x, i)
    {
      assert UnmapAt(p, q, d, first, a, e, x, i);
    }
    forall g: nat | g in q.owner
      ensures !InRange(q.owner[g], d, a, b)
    {
      assert UseOk(q, g);
    }
  }

  lemma DroppedTwice(owner: map<nat, Use>, d: nat, a: nat, b: nat, c: nat)
    requires a <= b <= c
    ensures Dropped(Dropped(owner, d, a, b), d, b, c) == Dropped(owner, d, a, c)
  {
  }

  lemma UnmapOneMore(p: Phys, q: Phys, r: Phys, d: nat, first: nat, a: nat)
    requires UnmapIs(p, q, d, first, a) && UnmapIs(q, r, d, a, a + 1) && first <= a
    requires forall e: nat :: IsDir(p, e) ==> IsDir(q, e)
    ensures UnmapIs(p, r, d, first, a + 1)
  {
    hide Pte;
    var b := a + 1;
    forall e: nat, x: nat, i: nat
      ensures UnmapAt(p, r, d, first, b, e, x, i)
    {
      assert UnmapAt(p, q, d, first, a, e, x, i) && UnmapAt(q, r, d, a, b, e, x, i);
    }
  }

  /** A mapped user page is unmapped and given back. `r` is after both, in either order. */
  lemma UnmapKeepsInv(p: Phys, r: Phys, d: nat, x: nat, i: nat, t: nat, f: nat)
    requires Inv(p) && TableAt(p, d, x, t) && UserPageAt(p, d, x, i, f)
    requires t < |p.mem| && |r.mem| == |p.mem|
    requires forall g: nat :: g < |p.mem| && g != f && g != t ==> r.mem[g] == p.mem[g]
    requires r.mem[t] == p.mem[t][i := 0]
    requires r == Phys(p.lo, r.mem, [f] + p.free, p.owner - {f})
    ensures Inv(r) && UnmapIs(p, r, d, x * NENTRIES + i, x * NENTRIES + i + 1)
    ensures r.owner == Dropped(p.owner, d, x * NENTRIES + i, x * NENTRIES + i + 1) && KeepsContents(p, r, d)
  {
    TableIs(p, d, x);
    assert PteOk(p, d, x, i);
    var q := p.(mem := p.mem[t := p.mem[t][i := 0]], owner := p.owner[f := Kernel]);
    OnlyUser(p, d, x, i, f);
    PteAfterSet(p, q, d, x, i, 0, d, x, i);
    SetPteKeepsInv(p, q, d, x, i, 0);
    OwnedIs(q, f);
    GiveKeepsInv(q, r, f);
    var v := x * NENTRIES + i;
    var w := v + 1;
    forall e: nat, y: nat, j: nat
      ensures UnmapAt(p, r, d, v, w, e, y, j)
    {
      if IsDir(p, e) {
        PteAfterSet(p, q, d, x, i, 0, e, y, j);
        SamePtes(q, r, e, y, j);
      }
    }
    assert r.owner == Dropped(p.owner, d, v, w);
  }

  lemma OnlyUser(p: Phys, d: nat, x: nat, i: nat, f: nat)
    requires Inv(p) && UserPageAt(p, d, x, i, f)
    ensures f in p.owner && p.owner[f] == User(d, x, i)
    ensures forall g: nat :: g in p.owner && p.owner[g] == User(d, x, i) ==> g == f
    ensures forall g: nat :: g in p.owner && InRange(p.owner[g], d, x * NENTRIES + i, x * NENTRIES + i + 1) ==> g == f
  {
    assert PteOk(p, d, x, i);
    forall g: nat | g in p.owner && p.owner[g] == User(d, x, i)
      ensures g == f
    {
      assert UseOk(p, g);
    }
    forall g: nat | g in p.owner && InRange(p.owner[g], d, x * NENTRIES + i, x * NENTRIES + i + 1)
      ensures g == f
    {
      assert UseOk(p, g);
    }
  }
}
