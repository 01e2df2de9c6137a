/** `kalloc.c` and `vm.c`: the page allocator, and the user and kernel parts of two-level page tables.

Addresses are kept as page numbers, of memory and of virtual addresses; a page table entry is a word, page number times
4096 plus flags. The free list runs through the first word of each free page, as page numbers with 0 for its end.
 */
module Vm {
  import opened Frames

  datatype Option<+T> = None | Some(value: T)

  const JUNK := 0x0101_0101

  class Memory {
    const lo: nat

    /** The page of memory where the kernel's data starts. */
    const data: nat
    var mem: seq<Page>
    var freelist: nat
    ghost var free: seq<nat>
    ghost var owner: map<nat, Use>

    ghost function Now(): Phys
      reads this
    {
      Phys(lo, mem, free, owner)
    }

    /** The list from `head` through the first words is `free`. */
    static ghost predicate Linked(mem: seq<Page>, head: nat, free: seq<nat>) {
      && head == (if free == [] then 0 else free[0])
      && forall j: nat :: LinkOk(mem, free, j)
    }

    static predicate LinkOk(mem: seq<Page>, free: seq<nat>, j: nat) {
      j < |free| ==> 0 < free[j] < |mem| && mem[free[j]][0] == if j + 1 < |free| then free[j + 1] else 0
    }

    ghost predicate Valid()
      reads this
    {
      Inv(Now()) && Linked(mem, freelist, free)
    }

    // ----- kalloc.c

    /** `kfree` puts a page at the head of the free list, which stays one unless the page is in it already; false is its
    panic. */
    method Kfree(f: nat) returns (ok: bool)
      requires Linked(mem, freelist, free) && |mem| == TOP && 0 < lo
      modifies `mem, `freelist, `free
      ensures ok <==> lo <= f < TOP
      ensures !ok ==> unchanged(this)
      ensures ok && f !in old(free) ==> Linked(mem, freelist, free)
      ensures ok ==>
                && free == [f] + old(free) && freelist == f && |mem| == |old(mem)|
                && mem[f] == seq(NENTRIES, _ => 0x0101_0101)[0 := old(freelist)]
                && forall g: nat :: g < |mem| && g != f ==> mem[g] == old(mem)[g]
    {
      if f < lo || f >= TOP {
        return false;
      }
      var junk: Page := seq(NENTRIES, _ => JUNK);
      mem := mem[f := junk[0 := freelist]];
      freelist := f;
      free := [f] + free;
      forall j: nat
        ensures f !in old(free) ==> LinkOk(mem, free, j)
      {
        assert j > 0 ==> LinkOk(old(mem), old(free), j - 1);
      }
      return true;
    }

    /** `kalloc` takes the page at the head of the free list. */
    method Kalloc() returns (r: Option<nat>)
      requires Linked(mem, freelist, free)
      modifies `freelist, `free
      ensures r == None <==> old(free) == []
      ensures r == None ==> unchanged(this)
      ensures r.Some? ==>
                old(free) != [] && r.value == old(free)[0] != 0 && free == old(free)[1..] && Linked(mem, freelist, free)
    {
      var r' := freelist;
      if r' == 0 {
        return None;
      }
      assert LinkOk(mem, free, 0);
      freelist := mem[r'][0];
      free := free[1..];
      forall j: nat
        ensures LinkOk(mem, free, j)
      {
        assert LinkOk(mem, old(free), j + 1);
      }
      return Some(r');
    }

    /** Writing a page that is not free keeps the free list. */
    static lemma LinkedStays(mem: seq<Page>, now: seq<Page>, head: nat, free: seq<nat>)
      requires Linked(mem, head, free) && |now| == |mem|
      requires forall f: nat :: f in free && f < |mem| ==> now[f] == mem[f]
      ensures Linked(now, head, free)
    {
      forall j: nat
        ensures LinkOk(now, free, j)
      {
        assert LinkOk(mem, free, j);
      }
    }

    /** A kernel page is taken; its contents are whatever they were. */
    method Alloc() returns (r: Option<nat>)
      requires Valid()
      modifies `freelist, `free, `owner
      ensures Valid() && (r == None <==> old(free) == [])
      ensures r == None ==> unchanged(this)
      ensures r.Some? ==>
                && r.value !in old(owner) && owner == old(owner)[r.value := Kernel] && r.value < |mem|
                && |free| == |old(free)| - 1 && SameTables(old(Now()), Now())
    {
      r := Kalloc();
      if r.Some? {
        ghost var p := old(Now());
        owner := owner[r.value := Kernel];
        TakeKeepsInv(p, Now(), r.value);
        OwnedIs(Now(), r.value);
      }
    }

    /** A kernel page is given back; `kfree` does not panic. */
    method Free(f: nat)
      requires Valid() && f in owner && owner[f] == Kernel
      modifies `mem, `freelist, `free, `owner
      ensures Valid() && owner == old(owner) - {f} && free == [f] + old(free) && SameTables(old(Now()), Now())
      ensures |mem| == |old(mem)| && forall g: nat :: g < |mem| && g != f ==> mem[g] == old(mem)[g]
    {
      ghost var p := Now();
      OwnedIs(p, f);
      var ok := Kfree(f);
      assert ok;
      owner := owner - {f};
      GiveKeepsInv(p, Now(), f);
    }

    /** The pages from `lo` up to `hi`, held by the kernel. */
    static ghost function Held(lo: nat, hi: nat): (m: map<nat, Use>)
      ensures forall f: nat :: f in m <==> lo <= f < hi
      ensures forall f: nat :: f in m ==> m[f] == Kernel
    {
      if hi <= lo then map[] else Held(lo, hi - 1)[hi - 1 := Kernel]
    }

    /** Memory as the boot loader leaves it: the kernel ends at address `end`, and holds the rest until it gives it to
    the allocator. */
    constructor Boot(end: nat, data: nat, image: seq<Page>)
      requires |image| == TOP && 0 < end
      ensures Valid() && free == [] && mem == image && this.data == data && lo == (end + PGSIZE - 1) / PGSIZE
      ensures owner == Held(lo, TOP)
    {
      lo, this.data, mem, freelist, free := (end + PGSIZE - 1) / PGSIZE, data, image, 0, [];
      owner := Held((end + PGSIZE - 1) / PGSIZE, TOP);
    }

    /** Page `f` lies wholly in the range of bytes. */
    static predicate Whole(f: nat, start: nat, end: nat) {
      start <= f * PGSIZE && (f + 1) * PGSIZE <= end
    }

    /** `freerange` gives the whole pages of a range, held by the kernel, to the allocator; no `kfree` in it panics. */
    method Freerange(start: nat, end: nat)
      requires Valid() && forall f: nat :: Whole(f, start, end) ==> f in owner && owner[f] == Kernel
      modifies `mem, `freelist, `free, `owner
      ensures Valid() && SameTables(old(Now()), Now())
      ensures forall f: nat :: f in free <==> f in old(free) || Whole(f, start, end)
      ensures owner == map f: nat | f in old(owner) && !Whole(f, start, end) :: old(owner)[f]
      ensures |mem| == |old(mem)| && forall f: nat :: f < |mem| && !Whole(f, start, end) ==> mem[f] == old(mem)[f]
    {
      hide Inv, Linked;
      var p := (start + PGSIZE - 1) / PGSIZE;
      ghost var first := p;
      assert owner == map f: nat | f in owner && !(first <= f < p) :: owner[f];
      while (p + 1) * PGSIZE <= end
        invariant first <= p && Valid() && SameTables(old(Now()), Now())
        invariant forall f: nat :: f in free <==> f in old(free) || first <= f < p
        invariant owner == map f: nat | f in old(owner) && !(first <= f < p) :: old(owner)[f]
        invariant |mem| == |old(mem)| && forall f: nat :: f < |mem| && !(first <= f < p) ==> mem[f] == old(mem)[f]
        invariant p > first ==> p * PGSIZE <= end
        decreases end - p * PGSIZE
      {
        assert Whole(p, start, end);
        Free(p);
        p := p + 1;
      }
      forall f: nat
        ensures Whole(f, start, end) <==> first <= f < p
      {
      }
    }

    /** `kinit1` and `kinit2`: when the rest of the kernel has taken no page between them, all pages are free. */
    method Kinit(end: nat)
      requires Valid() && free == [] && lo == (end + PGSIZE - 1) / PGSIZE && end <= FIRST
      requires owner == Held(lo, TOP)
      modifies `mem, `freelist, `free, `owner
      ensures Valid() && owner == map[] && forall f: nat :: f in free <==> lo <= f < TOP
    {
      forall f: nat
        ensures Whole(f, end, FIRST) <==> lo <= f < FIRST / PGSIZE
        ensures Whole(f, FIRST, TOP * PGSIZE) <==> FIRST / PGSIZE <= f < TOP
      {
      }
      hide *;
      Freerange(end, FIRST);
      Freerange(FIRST, TOP * PGSIZE);
    }

    /** Where `kinit1` stops and `kinit2` goes on: 4 MB. */
    static const FIRST: nat := 4 * 1024 * 1024

    /** `memset(page, 0, PGSIZE)` */
    method Zero(f: nat)
      requires Valid() && f in owner && owner[f] == Kernel
      modifies `mem
      ensures Valid() && SameTables(old(Now()), Now()) && |mem| == |old(mem)| && f < |mem|
      ensures mem == old(mem)[f := mem[f]] && (forall i: nat :: i < NENTRIES ==> mem[f][i] == 0)
    {
      ghost var p := Now();
      OwnedIs(p, f);
      var page: Page := seq(NENTRIES, _ => 0);
      mem := mem[f := page];
      WriteKeepsInv(p, Now(), f);
      LinkedStays(p.mem, mem, freelist, free);
    }

    // ----- vm.c

    /** From `p` to `q` directory `d` got the tables of the entries from `lo` up to `hi` that it lacked. They and `n`
    more pages came off the free list. */
    static ghost predicate Took(p: Phys, q: Phys, d: nat, lo: nat, hi: nat, n: nat) {
      && d < |p.mem| && d < |q.mem| && hi <= NENTRIES
      && Adds(p.mem[d], q.mem[d], lo, hi) && |q.free| == |p.free| - n - Absent(p.mem[d], lo, hi)
    }

    /** `walkpgdir` finds the table for page `v`, or makes an empty one; no mapping changes, and `None` is for want of a
    table or of memory to make it. */
    method Walkpgdir(d: nat, v: nat, alloc: bool) returns (r: Option<nat>)
      requires Valid() && IsDir(Now(), d) && v / NENTRIES < NENTRIES
      modifies this
      ensures Valid() && IsDir(Now(), d)
      ensures r == None ==> unchanged(this) && !Present(mem[d][v / NENTRIES]) && (alloc ==> free == [])
      ensures r.Some? ==> TableAt(Now(), d, v / NENTRIES, r.value)
      ensures !alloc || Present(old(mem[d][v / NENTRIES])) ==> unchanged(this)
      ensures r.Some? && alloc ==> Took(old(Now()), Now(), d, v / NENTRIES, v / NENTRIES + 1, 0)
      ensures SameMap(old(Now()), Now()) && Kept(old(Now()), Now(), d, {})
    {
      hide Inv;
      var x := v / NENTRIES;
      var pde := mem[d][x];
      if Present(pde) {
        TableThere(Now(), d, x);
        return Some(FrameOf(pde));
      }
      if !alloc {
        return None;
      }
      ghost var p := Now();
      r := Alloc();
      if r == None {
        return;
      }
      var pgtab := r.value;
      Zero(pgtab);
      ghost var q := Now();
      assert Blank(q.mem[pgtab]);
      mem := mem[d := mem[d][x := MakePte(pgtab, PTE_W + PTE_U)]];
      owner := owner[pgtab := Table(d, x)];
      WalkLinks(p, q, Now(), d, x, pgtab);
      TableAdded(p, Now(), d, x, q.mem[d], MakePte(pgtab, PTE_W + PTE_U));
    }

    static lemma TableThere(p: Phys, d: nat, x: nat)
      requires d < |p.mem| && x < NENTRIES && Present(p.mem[d][x])
      ensures Took(p, p, d, x, x + 1, 0)
    {
    }

    static lemma TableAdded(p: Phys, r: Phys, d: nat, x: nat, was: Page, w: nat)
      requires d < |p.mem| == |r.mem| && x < NENTRIES && !Present(p.mem[d][x]) && Present(w)
      requires was == p.mem[d] && r.mem[d] == was[x := w] && |r.free| == |p.free| - 1
      ensures Took(p, r, d, x, x + 1, 0)
    {
    }

    /** The directory entries of the pages from `first` up to `a` end here. */
    static function TableEnd(first: nat, a: nat): nat {
      if a <= first then first / NENTRIES else (a - 1) / NENTRIES + 1
    }

    /** Free pages that it takes to give each page from `first` up to `last` a page of memory of its own, or with `own`
    false only the tables to map them. */
    static function Cost(dir: Page, first: nat, last: nat, own: bool): nat
      requires last <= NENTRIES * NENTRIES
    {
      if last <= first then 0
      else (if own then last - first else 0) + Absent(dir, first / NENTRIES, TableEnd(first, last))
    }

    static ghost predicate TookUpTo(p: Phys, q: Phys, d: nat, first: nat, a: nat, own: bool) {
      first <= a && Took(p, q, d, first / NENTRIES, TableEnd(first, a), if own then a - first else 0)
    }

    static lemma TookNothing(p: Phys, d: nat, first: nat, own: bool)
      requires d < |p.mem| && first <= NENTRIES * NENTRIES
      ensures TookUpTo(p, p, d, first, first, own)
    {
    }

    /** Page `a` is mapped as well. `h` is the state with its page in hand. */
    static lemma TookOneMore(p: Phys, q: Phys, h: Phys, r: Phys, d: nat, first: nat, a: nat, own: bool)
      requires TookUpTo(p, q, d, first, a, own) && a < NENTRIES * NENTRIES
      requires d < |h.mem| && h.mem[d] == q.mem[d] && |h.free| == |q.free| - if own then 1 else 0
      requires Took(h, r, d, a / NENTRIES, a / NENTRIES + 1, 0)
      ensures TookUpTo(p, r, d, first, a + 1, own)
    {
      var x, lo, mid := a / NENTRIES, first / NENTRIES, TableEnd(first, a);
      var was, now := p.mem[d], q.mem[d];
      assert mid == x || (lo < mid && mid == x + 1);
      assert Absent(now, x, x + 1) == if Present(now[x]) then 0 else 1;
      assert TableEnd(first, a + 1) == x + 1;
      assert Absent(was, lo, x + 1) == Absent(was, lo, x) + if Present(was[x]) then 0 else 1;
    }

    /** Memory ran out at page `a`: there was not enough for all pages. */
    static lemma TooFew(p: Phys, q: Phys, d: nat, first: nat, a: nat, last: nat, own: bool)
      requires TookUpTo(p, q, d, first, a, own) && a < last <= NENTRIES * NENTRIES
      requires |q.free| < (if own then 1 else 0) + if Present(q.mem[d][a / NENTRIES]) then 0 else 1
      ensures |p.free| < Cost(p.mem[d], first, last, own)
    {
      var x, lo, mid := a / NENTRIES, first / NENTRIES, TableEnd(first, a);
      assert mid == x || (lo < mid && mid == x + 1);
      assert Absent(p.mem[d], lo, x + 1) == Absent(p.mem[d], lo, x) + if Present(p.mem[d][x]) then 0 else 1;
      AbsentGrows(p.mem[d], lo, x + 1, TableEnd(first, last));
    }

    static lemma CostGrows(dir: Page, first: nat, u: nat, last: nat)
      requires first <= u <= last <= NENTRIES * NENTRIES
      ensures Cost(dir, first, u, false) <= Cost(dir, first, last, false)
    {
      if first < u {
        AbsentGrows(dir, first / NENTRIES, TableEnd(first, u), TableEnd(first, last));
      }
    }

    static lemma TookAll(p: Phys, q: Phys, d: nat, first: nat, last: nat, own: bool)
      requires TookUpTo(p, q, d, first, last, own) && last <= NENTRIES * NENTRIES
      ensures |q.free| == |p.free| - Cost(p.mem[d], first, last, own)
    {
    }

    static lemma OneTable(h: Phys, r: Phys, d: nat, a: nat)
      requires TookUpTo(h, r, d, a, a + 1, false)
      ensures Took(h, r, d, a / NENTRIES, a / NENTRIES + 1, 0)
    {
    }

    static lemma NoTable(h: Phys, d: nat, a: nat)
      requires d < |h.mem| && a < NENTRIES * NENTRIES && |h.free| < Cost(h.mem[d], a, a + 1, false)
      ensures |h.free| == 0 && !Present(h.mem[d][a / NENTRIES])
    {
      assert Absent(h.mem[d], a / NENTRIES, a / NENTRIES) == 0;
    }

    const PTE_W := 2
    const PTE_U := 4

    lemma WalkLinks(p: Phys, q: Phys, r: Phys, d: nat, x: nat, t: nat)
      requires Inv(p) && Inv(q) && IsDir(p, d) && x < NENTRIES && !Present(p.mem[d][x])
      requires t !in p.owner && q.owner == p.owner[t := Kernel] && t < |q.mem| == |p.mem| && Blank(q.mem[t])
      requires SameTables(p, q) && forall g: nat :: g < |p.mem| && g != t ==> q.mem[g] == p.mem[g]
      requires r == q.(mem := q.mem[d := q.mem[d][x := MakePte(t, PTE_W + PTE_U)]], owner := q.owner[t := Table(d, x)])
      requires Linked(q.mem, freelist, q.free)
      ensures Inv(r) && SameMap(p, r) && Kept(p, r, d, {}) && TableAt(r, d, x, t) && Linked(r.mem, freelist, r.free)
    {
      LinkTable(q, r, d, x, t, PTE_W + PTE_U);
      OwnedIs(q, d);
      LinkedStays(q.mem, r.mem, freelist, q.free);
      forall e: nat, y: nat, i: nat
        ensures IsDir(p, e) ==> SamePte(p, r, e, y, i)
      {
        if IsDir(p, e) {
          SamePtes(p, q, e, y, i);
          assert SamePte(q, r, e, y, i);
        }
      }
    }

    /** One turn of the loop of `mappages`. A user page must be in the kernel's hands, and becomes the address's. */
    method MapOne(d: nat, v: nat, f: nat, perm: nat) returns (r: MapResult)
      requires Valid() && IsDir(Now(), d) && v < NENTRIES * NENTRIES && perm < PGSIZE
      requires v < USER * NENTRIES ==> f in owner && owner[f] == Kernel
      modifies this
      ensures Valid() && IsDir(Now(), d)
      ensures r == Remap <==> Present(old(Pte(mem, d, v / NENTRIES, v % NENTRIES)))
      ensures r == Remap ==> unchanged(this)
      ensures r == NoMemory ==> unchanged(this) && free == [] && !Present(mem[d][v / NENTRIES])
      ensures r == Mapped ==> Took(old(Now()), Now(), d, v / NENTRIES, v / NENTRIES + 1, 0)
      ensures r == Mapped ==> MapIs(old(Now()), Now(), d, v, 1, f, perm)
      ensures r == Mapped ==> Kept(old(Now()), Now(), d, if v < USER * NENTRIES then {f} else {})
      ensures r == Mapped && v < USER * NENTRIES ==>
                f in owner && owner[f] == User(d, v / NENTRIES, v % NENTRIES) && f < |mem| == |old(mem)| &&
                    mem[f] == old(mem)[f]
    {
      hide Inv, MapIs, Linked;
      ghost var p := Now();
      var x, i := v / NENTRIES, v % NENTRIES;
      var pgtab := Walkpgdir(d, v, true);
      if pgtab == None {
        return NoMemory;
      }
      ghost var q := Now();
      var t := pgtab.value;
      TableIs(q, d, x);
      assert SamePte(p, q, d, x, i);
      if Present(mem[t][i]) {
        return Remap;
      }
      mem := mem[t := mem[t][i := MakePte(f, perm)]];
      if v < USER * NENTRIES {
        owner := owner[f := User(d, x, i)];
      }
      SetOne(p, q, Now(), d, v, t, f, perm);
      return Mapped;
    }

    lemma SetOne(p: Phys, q: Phys, r: Phys, d: nat, v: nat, t: nat, f: nat, perm: nat)
      requires Inv(p) && Inv(q) && SameMap(p, q) && Kept(p, q, d, {}) && IsDir(p, d) && IsDir(q, d)
      requires v < NENTRIES * NENTRIES && perm < PGSIZE && TableAt(q, d, v / NENTRIES, t) && t < |q.mem|
      requires !Present(Pte(q.mem, d, v / NENTRIES, v % NENTRIES)) && Linked(q.mem, freelist, q.free)
      requires v < USER * NENTRIES ==> f in p.owner && p.owner[f] == Kernel
      requires r == q.(mem := q.mem[t := q.mem[t][v % NENTRIES := MakePte(f, perm)]],
                       owner := if v < USER * NENTRIES then q.owner[f := User(d, v / NENTRIES, v % NENTRIES)]
                           else q.owner)
      ensures Inv(r) && MapIs(p, r, d, v, 1, f, perm) && IsDir(r, d) && Linked(r.mem, freelist, r.free)
      ensures Kept(p, r, d, if v < USER * NENTRIES then {f} else {})
      ensures v < USER * NENTRIES ==> f < |p.mem| && r.mem[f] == p.mem[f]
    {
      var x, i := v / NENTRIES, v % NENTRIES;
      var w := MakePte(f, perm);
      TableIs(q, d, x);
      if v < USER * NENTRIES {
        OwnedIs(p, f);
      }
      LinkedStays(q.mem, r.mem, freelist, q.free);
      forall e: nat, y: nat, j: nat
        ensures MapAt(p, r, d, v, 1, f, perm, e, y, j)
      {
        if IsDir(p, e) {
          assert SamePte(p, q, e, y, j);
          PteAfterSet(q, r, d, x, i, w, e, y, j);
          SplitPage(v, y, j);
        }
      }
      PteAfterSet(q, r, d, x, i, w, d, x, i);
      NoUserYet(q, d, x, i);
      SetPteKeepsInv(q, r, d, x, i, w);
    }

    static lemma NoUserYet(q: Phys, d: nat, x: nat, i: nat)
      requires Inv(q) && !Present(Pte(q.mem, d, x, i))
      ensures forall g: nat :: g in q.owner ==> q.owner[g] != User(d, x, i)
    {
      forall g: nat | g in q.owner
        ensures q.owner[g] != User(d, x, i)
      {
        assert UseOk(q, g);
      }
    }

    /** Of the pages `f`, `f + 1`, ... mapped at `n` addresses from page `v` on, those at user addresses. */
    static ghost function UserFrames(v: nat, f: nat, n: nat): set<nat> {
      set g: nat | g < f + n && IsUserFrame(v, f, n, g)
    }

    static predicate IsUserFrame(v: nat, f: nat, n: nat, g: nat) {
      f <= g < f + n && v + (g - f) < USER * NENTRIES
    }

    static lemma FrameIsUser(v: nat, f: nat, n: nat, g: nat)
      requires f <= g < f + n
      ensures v + (g - f) < USER * NENTRIES ==> g in UserFrames(v, f, n)
    {
      assert v + (g - f) < USER * NENTRIES ==> IsUserFrame(v, f, n, g);
    }

    /** Pages `f`, `f + 1`, ... mapped at user addresses are the addresses' pages, with their contents. */
    static ghost predicate Given(p: Phys, q: Phys, d: nat, v: nat, n: nat, f: nat) {
      forall g: nat :: g in UserFrames(v, f, n) ==>
        var a := v + (g - f);
        g in q.owner && q.owner[g] == User(d, a / NENTRIES, a % NENTRIES) && g < |p.mem| == |q.mem| &&
            q.mem[g] == p.mem[g]
    }

    /** `mappages` maps consecutive pages at consecutive addresses. It panics at the first address that was mapped
    before, if memory for tables lasts till there. On want of memory the first `done` pages are mapped. */
    method Mappages(d: nat, va: nat, size: nat, f: nat, perm: nat) returns (r: MapResult, ghost done: nat)
      requires Valid() && IsDir(Now(), d) && size > 0 && va + size <= 0x1_0000_0000 && perm < PGSIZE
      requires forall k: nat :: k in UserFrames(va / PGSIZE, f, (va + size - 1) / PGSIZE - va / PGSIZE + 1) ==>
                                k in owner && owner[k] == Kernel
      modifies this
      ensures Valid() && IsDir(Now(), d)
      ensures MapIs(old(Now()), Now(), d, va / PGSIZE, done, f, perm) &&
                Given(old(Now()), Now(), d, va / PGSIZE, done, f)
      ensures Kept(old(Now()), Now(), d, UserFrames(va / PGSIZE, f, done))
      ensures r == Mapped ==> done == (va + size - 1) / PGSIZE - va / PGSIZE + 1
      ensures r == NoMemory ==> free == [] && done <= (va + size - 1) / PGSIZE - va / PGSIZE
      ensures r == NoMemory ==> |old(free)| < Cost(old(mem[d]), va / PGSIZE, (va + size - 1) / PGSIZE + 1, false)
      ensures r == Mapped ==> TookUpTo(old(Now()), Now(), d, va / PGSIZE, (va + size - 1) / PGSIZE + 1, false)
      ensures r != Mapped && done == 0 ==> unchanged(this)
      ensures var v, end := va / PGSIZE, (va + size - 1) / PGSIZE + 1;
              var u := FirstMapped(old(Now()), d, v, end);
              && (r == NoMemory <==> |old(free)| < Cost(old(mem[d]), v, u, false))
              && (r == Remap <==> |old(free)| >= Cost(old(mem[d]), v, u, false) && u < end)
              && (r == Remap ==> done == u - v)
    {
      hide Inv, Linked, MapIs, Kept, Given, UserFrames, Took, TookUpTo, Cost, FirstMapped, Pte;
      var a, last, pa := va / PGSIZE, (va + size - 1) / PGSIZE, f;
      ghost var p, v := Now(), a;
      done := 0;
      MapNothing(p, p, d, v, f, perm);
      NothingGiven(p, d, v, f);
      PageFits(va, size, last);
      TookNothing(p, d, v, false);
      ghost var u := FirstMapped(p, d, v, last + 1);
      while true
        invariant a == v + done <= u && a <= last && pa == f + done && (done == 0 ==> unchanged(this))
        invariant Valid() && IsDir(Now(), d) && MapIs(p, Now(), d, v, done, f, perm) && Given(p, Now(), d, v, done, f)
        invariant TookUpTo(p, Now(), d, v, a, false)
        invariant Kept(p, Now(), d, UserFrames(v, f, done))
        invariant forall k: nat :: k in UserFrames(v, f, last - v + 1) && k >= f + done ==>
                  k in owner && owner[k] == Kernel
        decreases last - a
      {
        ghost var q := Now();
        PageFits(va, size, a);
        FrameIsUser(v, f, last - v + 1, pa);
        MappedBefore(p, q, d, v, done, f, perm);
        r := MapOne(d, a, pa, perm);
        if r == Remap {
          TookAll(p, q, d, v, u, false);
          return;
        }
        assert !IsMapped(p, d, a);
        if r == NoMemory {
          TooFew(p, q, d, v, a, u, false);
          CostGrows(p.mem[d], v, u, last + 1);
          return;
        }
        TookOneMore(p, q, q, Now(), d, v, a, false);
        GivenOneMore(p, q, Now(), d, v, done, f, perm, last);
        done := done + 1;
        if a == last {
          break;
        }
        a := a + 1;
        pa := pa + 1;
      }
      TookAll(p, Now(), d, v, u, false);
      r := Mapped;
    }

    static predicate IsMapped(p: Phys, d: nat, v: nat) {
      Present(Pte(p.mem, d, v / NENTRIES, v % NENTRIES))
    }

    static lemma PageFits(va: nat, size: nat, a: nat)
      requires size > 0 && va + size <= 0x1_0000_0000 && a <= (va + size - 1) / PGSIZE
      ensures a < NENTRIES * NENTRIES
    {
    }

    static lemma NothingGiven(p: Phys, d: nat, v: nat, f: nat)
      ensures Given(p, p, d, v, 0, f) && Kept(p, p, d, UserFrames(v, f, 0))
    {
    }

    static lemma MappedBefore(p: Phys, q: Phys, d: nat, v: nat, n: nat, f: nat, perm: nat)
      requires perm < PGSIZE && MapIs(p, q, d, v, n, f, perm) && IsDir(p, d) && v + n < NENTRIES * NENTRIES
      ensures IsMapped(q, d, v + n) <==> IsMapped(p, d, v + n)
    {
      SplitPage(v + n, 0, 0);
      assert MapAt(p, q, d, v, n, f, perm, d, (v + n) / NENTRIES, (v + n) % NENTRIES);
    }

    static lemma GivenOneMore(p: Phys, q: Phys, r: Phys, d: nat, v: nat, n: nat, f: nat, perm: nat, last: nat)
      requires perm < PGSIZE && IsDir(p, d) && Inv(p) && v + n <= last
      requires MapIs(p, q, d, v, n, f, perm) && Given(p, q, d, v, n, f) && Kept(p, q, d, UserFrames(v, f, n))
      requires MapIs(q, r, d, v + n, 1, f + n, perm) && Kept(q, r, d, if v + n < USER * NENTRIES then {f + n} else {})
      requires v + n < USER * NENTRIES ==>
                 && f + n in r.owner && r.owner[f + n] == User(d, (v + n) / NENTRIES, (v + n) % NENTRIES)
                 && f + n in q.owner && q.owner[f + n] == Kernel && f + n < |r.mem| == |q.mem| &&
                      r.mem[f + n] == q.mem[f + n]
      requires forall k: nat :: k in UserFrames(v, f, last - v + 1) ==> k in p.owner && p.owner[k] == Kernel
      requires forall k: nat :: k in UserFrames(v, f, last - v + 1) && k >= f + n ==>
                k in q.owner && q.owner[k] == Kernel
      ensures MapIs(p, r, d, v, n + 1, f, perm) && Given(p, r, d, v, n + 1, f) && Kept(p, r, d, UserFrames(v, f, n + 1))
      ensures forall k: nat :: k in UserFrames(v, f, last - v + 1) && k >= f + n + 1 ==>
                k in r.owner && r.owner[k] == Kernel
    {
      hide Inv, MapIs, Kept, UserFrames, Given;
      FramesGrow(v, f, n, last - v + 1);
      DirsStay(p, q, d, UserFrames(v, f, n));
      MapOneMore(p, q, r, d, v, n, f, perm);
      KeptTwice(p, q, r, d, UserFrames(v, f, n), if v + n < USER * NENTRIES then {f + n} else {});
      GivenGrows(p, q, r, d, v, n, f);
      StillKernel(q, r, d, v, n, f, last);
    }

    static lemma GivenGrows(p: Phys, q: Phys, r: Phys, d: nat, v: nat, n: nat, f: nat)
      requires Given(p, q, d, v, n, f) && Kept(p, q, d, UserFrames(v, f, n))
      requires Kept(q, r, d, if v + n < USER * NENTRIES then {f + n} else {})
      requires v + n < USER * NENTRIES ==>
                 && f + n in r.owner && r.owner[f + n] == User(d, (v + n) / NENTRIES, (v + n) % NENTRIES)
                 && f + n < |r.mem| == |q.mem| && r.mem[f + n] == q.mem[f + n] && f + n in p.owner &&
                      p.owner[f + n] == Kernel
      requires UserFrames(v, f, n + 1) == UserFrames(v, f, n) + if v + n < USER * NENTRIES then {f + n} else {}
      requires forall g: nat :: g in UserFrames(v, f, n) ==> f <= g < f + n
      ensures Given(p, r, d, v, n + 1, f)
    {
      hide UserFrames;
    }

    static lemma StillKernel(q: Phys, r: Phys, d: nat, v: nat, n: nat, f: nat, last: nat)
      requires v + n <= last && Kept(q, r, d, if v + n < USER * NENTRIES then {f + n} else {})
      requires forall k: nat :: k in UserFrames(v, f, last - v + 1) && k >= f + n ==>
                k in q.owner && q.owner[k] == Kernel
      ensures forall k: nat :: k in UserFrames(v, f, last - v + 1) && k >= f + n + 1 ==>
                k in r.owner && r.owner[k] == Kernel
    {
      hide UserFrames;
    }

    static lemma FramesGrow(v: nat, f: nat, n: nat, m: nat)
      requires n < m
      ensures UserFrames(v, f, n + 1) == UserFrames(v, f, n) + if v + n < USER * NENTRIES then {f + n} else {}
      ensures UserFrames(v, f, n + 1) <= UserFrames(v, f, m)
      ensures forall g: nat :: g in UserFrames(v, f, n) ==> f <= g < f + n
    {
    }

    static lemma DirsStay(p: Phys, q: Phys, d: nat, but: set<nat>)
      requires Kept(p, q, d, but) && forall k: nat :: k in but ==> k in p.owner && p.owner[k] == Kernel
      ensures forall e: nat :: IsDir(p, e) ==> IsDir(q, e)
    {
    }

    /** The page of memory `*pte` names is freed, then the entry cleared. */
    method UnmapOne(d: nat, x: nat, i: nat, t: nat)
      requires Valid() && TableAt(Now(), d, x, t) && x < USER && i < NENTRIES && t < |mem| && Present(mem[t][i])
      modifies `mem, `freelist, `free, `owner
      ensures Valid() && IsDir(Now(), d)
      ensures UnmapIs(old(Now()), Now(), d, x * NENTRIES + i, x * NENTRIES + i + 1)
      ensures owner == Dropped(old(owner), d, x * NENTRIES + i, x * NENTRIES + i + 1) &&
                KeepsContents(old(Now()), Now(), d)
    {
      ghost var p := Now();
      TableIs(p, d, x);
      var pa := FrameOf(mem[t][i]);
      OnlyUser(p, d, x, i, pa);
      OwnedIs(p, pa);
      assert pa != 0;
      var ok := Kfree(pa);
      assert ok;
      ghost var q := mem;
      mem := mem[t := mem[t][i := 0]];
      owner := owner - {pa};
      UnmapKeepsInv(p, Now(), d, x, i, t, pa);
      LinkedStays(q, mem, freelist, free);
    }

    const KERNBASE: nat := 0x8000_0000

    static function RoundUp(sz: nat): (pages: nat)
      ensures sz <= pages * 4096 < sz + 4096
    {
      (sz + PGSIZE - 1) / PGSIZE
    }

    /** One turn of the loop of `deallocuvm`, with its step to the next page or past a missing table. */
    method DeallocStep(d: nat, a: nat, ghost first: nat, ghost last: nat, ghost p: Phys) returns (b: nat)
      requires Valid() && IsDir(Now(), d) && first <= a < last <= USER * NENTRIES && UnmapIs(p, Now(), d, first, a)
      requires forall e: nat :: IsDir(p, e) ==> IsDir(Now(), e)
      requires owner == Dropped(p.owner, d, first, a) && KeepsContents(p, Now(), d)
      modifies this
      ensures a < b && Valid() && IsDir(Now(), d) && UnmapIs(p, Now(), d, first, Least(b, last))
      ensures owner == Dropped(p.owner, d, first, Least(b, last)) && KeepsContents(p, Now(), d)
    {
      hide Inv, Linked, UnmapIs, Dropped, KeepsContents;
      ghost var q := Now();
      var x, i := a / NENTRIES, a % NENTRIES;
      SplitPage(a, x, i);
      var pgtab := Walkpgdir(d, a, false);
      if pgtab == None {
        b := (x + 1) * NENTRIES;
        NoTableHere(q, d, x, a, Least(b, last));
        UnmapSkips(p, q, d, first, a, Least(b, last));
        DroppedTwice(p.owner, d, first, a, Least(b, last));
        return;
      }
      b := a + 1;
      TableIs(q, d, x);
      if Present(mem[pgtab.value][i]) {
        UnmapOne(d, x, i, pgtab.value);
        UnmapOneMore(p, q, Now(), d, first, a);
        DroppedTwice(p.owner, d, first, a, b);
        ContentsTwice(p, q, Now(), d, a, b);
      } else {
        OnePage(q, d, x, i, a);
        UnmapSkips(p, q, d, first, a, b);
        DroppedTwice(p.owner, d, first, a, b);
      }
    }

    static lemma NoTableHere(q: Phys, d: nat, x: nat, a: nat, b: nat)
      requires d < |q.mem| && x < NENTRIES && !Present(q.mem[d][x]) && x * NENTRIES <= a && b <= (x + 1) * NENTRIES
      ensures forall y: nat, i: nat :: i < NENTRIES && a <= y * NENTRIES + i < b ==> !Present(Pte(q.mem, d, y, i))
    {
      forall y: nat, i: nat | i < NENTRIES && a <= y * NENTRIES + i < b
        ensures !Present(Pte(q.mem, d, y, i))
      {
        assert y == x;
      }
    }

    static lemma OnePage(q: Phys, d: nat, x: nat, i: nat, a: nat)
      requires !Present(Pte(q.mem, d, x, i)) && a == x * NENTRIES + i && i < NENTRIES
      ensures forall y: nat, j: nat :: j < NENTRIES && a <= y * NENTRIES + j < a + 1 ==> !Present(Pte(q.mem, d, y, j))
    {
      forall y: nat, j: nat | j < NENTRIES && a <= y * NENTRIES + j < a + 1
        ensures !Present(Pte(q.mem, d, y, j))
      {
        assert y == x && j == i;
      }
    }

    static lemma DirsAreKept(p: Phys, q: Phys, d: nat, a: nat, b: nat)
      requires q.owner == Dropped(p.owner, d, a, b) && KeepsContents(p, q, d)
      ensures forall e: nat :: IsDir(p, e) ==> IsDir(q, e)
    {
    }

    static lemma ContentsTwice(p: Phys, q: Phys, r: Phys, d: nat, a: nat, b: nat)
      requires KeepsContents(p, q, d) && KeepsContents(q, r, d) && r.owner == Dropped(q.owner, d, a, b)
      ensures KeepsContents(p, r, d)
    {
    }

    /** `deallocuvm` unmaps and frees every user page from the new size up to the old, whole missing tables at a
    time. */
    method Deallocuvm(d: nat, oldsz: nat, newsz: nat) returns (r: nat)
      requires Valid() && IsDir(Now(), d) && oldsz <= KERNBASE
      modifies this
      ensures Valid() && IsDir(Now(), d) && r == if newsz >= oldsz then oldsz else newsz
      ensures newsz >= oldsz ==> unchanged(this)
      ensures newsz < oldsz ==>
                && UnmapIs(old(Now()), Now(), d, RoundUp(newsz), RoundUp(oldsz))
                && owner == Dropped(old(owner), d, RoundUp(newsz), RoundUp(oldsz)) &&
                     KeepsContents(old(Now()), Now(), d)
    {
      if newsz >= oldsz {
        return oldsz;
      }
      hide Inv, Linked, UnmapIs, Dropped, KeepsContents;
      ghost var p := Now();
      var a := RoundUp(newsz);
      ghost var first, last := a, RoundUp(oldsz);
      UnmapNothing(p, d, first);
      PagesBelow(oldsz, a);
      while a * PGSIZE < oldsz
        invariant first <= a && (a * PGSIZE < oldsz <==> a < last)
        invariant Valid() && IsDir(Now(), d) && UnmapIs(p, Now(), d, first, Least(a, last))
        invariant owner == Dropped(p.owner, d, first, Least(a, last)) && KeepsContents(p, Now(), d)
        decreases oldsz - a * PGSIZE
      {
        DirsAreKept(p, Now(), d, first, Least(a, last));
        a := DeallocStep(d, a, first, last, p);
        PagesBelow(oldsz, a);
      }
      r := newsz;
    }

    static lemma PagesBelow(sz: nat, a: nat)
      ensures a * PGSIZE < sz <==> a < RoundUp(sz)
      ensures sz <= 0x8000_0000 ==> RoundUp(sz) <= USER * NENTRIES
    {
    }

    static function Least(a: nat, b: nat): nat {
      if a < b then a else b
    }

    /** The uses of the tables of directory `d` whose entry number is below `n`, and nothing else, are gone. */
    static ghost predicate TablesGone(was: map<nat, Use>, now: map<nat, Use>, d: nat, n: nat) {
      forall g: nat :: TableGone(was, now, d, n, g)
    }

    static predicate TableGone(was: map<nat, Use>, now: map<nat, Use>, d: nat, n: nat, g: nat) {
      && (g in now ==> g in was && now[g] == if g == d || (was[g].Table? && was[g].d == d) then Kernel else was[g])
      && (g in was ==> (g in now <==> !(was[g].Table? && was[g].d == d && was[g].x < n)))
    }

    /** `freevm` gives back every user page, every table and the directory itself; no `kfree` in it panics, and no
    other page changes hands. */
    method Freevm(d: nat)
      requires Valid() && IsDir(Now(), d)
      modifies this
      ensures Valid() && owner == Without(old(owner), d)
      ensures |mem| == |old(mem)| && forall g: nat :: g in owner && g < |mem| ==> mem[g] == old(mem)[g]
    {
      hide Inv, Linked, UnmapIs, Dropped, KeepsContents, TablesGone;
      ghost var p := Now();
      var sz := Deallocuvm(d, KERNBASE, 0);
      ghost var q := Now();
      assert RoundUp(0) == 0 && RoundUp(KERNBASE) == USER * NENTRIES;
      AllUnmapped(p, q, d);
      FreeTables(d);
      ghost var before := owner;
      Free(d);
      NothingLeft(p, q, before, owner, d);
    }

    /** The loop of `freevm` over the directory: its tables are given back. */
    method FreeTables(d: nat)
      requires Valid() && IsDir(Now(), d)
      requires forall x: nat, i: nat :: x < USER && i < NENTRIES ==> !Present(Pte(mem, d, x, i))
      modifies this
      ensures Valid() && TablesGone(old(owner), owner, d, NENTRIES) && d in owner && owner[d] == Kernel
      ensures |mem| == |old(mem)| && forall g: nat :: g in owner && g < |mem| ==> mem[g] == old(mem)[g]
    {
      hide Inv, Linked, TablesGone;
      ghost var q := Now();
      DetachKeepsInv(q, q.(owner := Detached(q.owner, d)), d);
      owner := Detached(owner, d);
      OwnedIs(q, d);
      NoTableGone(q.owner, d);
      var i := 0;
      while i < NENTRIES
        invariant 0 <= i <= NENTRIES && Valid() && TablesGone(q.owner, owner, d, i) && |mem| == |q.mem|
        invariant forall g: nat :: g in owner && g < |mem| ==> mem[g] == q.mem[g]
        invariant d in owner && owner[d] == Kernel && d < |mem|
      {
        ghost var before := owner;
        if Present(mem[d][i]) {
          FreedTable(q, owner, d, i);
          Free(FrameOf(mem[d][i]));
        }
        NextTableGone(q, before, owner, d, i);
        i := i + 1;
      }
    }

    static lemma AllUnmapped(p: Phys, q: Phys, d: nat)
      requires IsDir(p, d) && UnmapIs(p, q, d, 0, USER * NENTRIES)
      ensures forall x: nat, i: nat :: x < USER && i < NENTRIES ==> !Present(Pte(q.mem, d, x, i))
    {
      hide Pte;
      forall x: nat, i: nat | x < USER && i < NENTRIES
        ensures !Present(Pte(q.mem, d, x, i))
      {
        assert UnmapAt(p, q, d, 0, USER * NENTRIES, d, x, i);
      }
    }

    static lemma NoTableGone(was: map<nat, Use>, d: nat)
      ensures TablesGone(was, Detached(was, d), d, 0)
    {
    }

    static lemma FreedTable(q: Phys, now: map<nat, Use>, d: nat, i: nat)
      requires Inv(q) && IsDir(q, d) && i < NENTRIES && TablesGone(q.owner, now, d, i) && Present(q.mem[d][i])
      ensures var t := FrameOf(q.mem[d][i]); t in now && now[t] == Kernel && t != d
    {
      TableIs(q, d, i);
      assert TableGone(q.owner, now, d, i, FrameOf(q.mem[d][i]));
    }

    static lemma NextTableGone(q: Phys, before: map<nat, Use>, after: map<nat, Use>, d: nat, i: nat)
      requires Inv(q) && IsDir(q, d) && i < NENTRIES && TablesGone(q.owner, before, d, i)
      requires after == if Present(q.mem[d][i]) then before - {FrameOf(q.mem[d][i])} else before
      ensures TablesGone(q.owner, after, d, i + 1)
    {
      if Present(q.mem[d][i]) {
        TableIs(q, d, i);
      }
      var n := i + 1;
      forall g: nat
        ensures TableGone(q.owner, after, d, n, g)
      {
        assert TableGone(q.owner, before, d, i, g) && UseOk(q, g);
      }
    }

    static lemma NothingLeft(p: Phys, q: Phys, before: map<nat, Use>, now: map<nat, Use>, d: nat)
      requires Inv(p) && Inv(q) && IsDir(q, d) && q.owner == Dropped(p.owner, d, 0, USER * NENTRIES)
      requires TablesGone(q.owner, before, d, NENTRIES) && now == before - {d} && KeepsContents(p, q, d)
      ensures now == Without(p.owner, d) && |q.mem| == |p.mem|
      ensures forall g: nat :: g in now && g < |p.mem| ==> q.mem[g] == p.mem[g]
    {
      forall g: nat
        ensures g in now <==> g in Without(p.owner, d)
        ensures g in now ==> now[g] == p.owner[g]
      {
        assert UseOk(p, g) && UseOk(q, g) && TableGone(q.owner, before, d, NENTRIES, g);
      }
    }

    // ----- growing

    static predicate Zeroed(g: Page) {
      forall i: nat :: i < NENTRIES ==> g[i] == 0
    }

    /** What `allocuvm` has made of one address when it has reached page `a`. */
    static predicate GrowAt(p: Phys, q: Phys, d: nat, first: nat, a: nat, e: nat, x: nat, i: nat) {
      IsDir(p, e) && x < NENTRIES && i < NENTRIES ==>
        if e == d && first <= x * NENTRIES + i < a
        then Present(Pte(q.mem, e, x, i)) && FlagsOf(Pte(q.mem, e, x, i)) == 7
        else SamePte(p, q, e, x, i)
    }

    /** And of one page of memory: pages in use are kept, and new ones are tables of the directory or zeroed user
      pages. */
    static predicate GrowUse(p: Phys, q: Phys, d: nat, first: nat, a: nat, g: nat) {
      && (g in p.owner ==> g in q.owner && q.owner[g] == p.owner[g])
      && (g in p.owner && (p.owner[g].Kernel? || p.owner[g].User?) && g < |p.mem| && g < |q.mem| ==>
           q.mem[g] == p.mem[g])
      && (g in q.owner && g !in p.owner ==>
            (q.owner[g].Table? && q.owner[g].d == d) ||
                (InRange(q.owner[g], d, first, a) && g < |q.mem| && Zeroed(q.mem[g])))
    }

    static ghost predicate Growing(p: Phys, q: Phys, d: nat, first: nat, a: nat) {
      && |q.mem| == |p.mem|
      && (forall e: nat, x: nat, i: nat :: GrowAt(p, q, d, first, a, e, x, i))
      && (forall g: nat :: GrowUse(p, q, d, first, a, g))
    }

    /** The first mapped page from `first` up to `last`, or `last`. */
    static function FirstMapped(p: Phys, d: nat, first: nat, last: nat): (u: nat)
      requires first <= last
      ensures first <= u <= last && (u < last ==> IsMapped(p, d, u))
      ensures forall v: nat :: first <= v < u ==> !IsMapped(p, d, v)
      decreases last
    {
      if first == last then last
      else
        var u := FirstMapped(p, d, first, last - 1);
        if u == last - 1 && !IsMapped(p, d, u) then last else u
    }

    /** The user pages of a range of addresses. */
    static ghost function RangePages(p: Phys, d: nat, first: nat, last: nat): set<nat> {
      set g: nat | g in p.owner && InRange(p.owner[g], d, first, last)
    }

    static lemma GrowNothing(p: Phys, d: nat, first: nat)
      ensures Growing(p, p, d, first, first)
    {
    }

    /** A fresh page was taken, zeroed and mapped: the next page is there. */
    static lemma GrowOne(p: Phys, q: Phys, h: Phys, r: Phys, d: nat, first: nat, a: nat, m: nat)
      requires Inv(p) && Inv(q) && Inv(h) && Growing(p, q, d, first, a) && first <= a
      requires m !in q.owner && h.owner == q.owner[m := Kernel] && SameTables(q, h) && m < |q.mem| == |h.mem| &&
                Zeroed(h.mem[m])
      requires forall g: nat :: g < |q.mem| && g != m ==> h.mem[g] == q.mem[g]
      requires MapIs(h, r, d, a, 1, m, 6) && Kept(h, r, d, {m})
      requires m in r.owner && r.owner[m] == User(d, a / NENTRIES, a % NENTRIES) && |r.mem| == |h.mem| &&
                r.mem[m] == h.mem[m]
      ensures Growing(p, r, d, first, a + 1)
    {
      var b := a + 1;
      SplitPage(a, 0, 0);
      hide Inv, Pte, MakePte, MapIs, Kept;
      forall e: nat, x: nat, i: nat
        ensures GrowAt(p, r, d, first, b, e, x, i)
      {
        assert GrowAt(p, q, d, first, a, e, x, i) && GrowUse(p, q, d, first, a, e);
        if IsDir(p, e) {
          assert IsDir(q, e);
          SamePtes(q, h, e, x, i);
          MapIsAt(h, r, d, a, 1, m, 6, e, x, i);
          MappedFlags(m);
          SameOrAbsent(p, h, r, e, x, i);
        }
      }
      forall g: nat
        ensures GrowUse(p, r, d, first, b, g)
      {
        assert GrowUse(p, q, d, first, a, g);
        KeptAt(h, r, d, {m}, g);
      }
    }

    static lemma MappedFlags(m: nat)
      ensures Present(MakePte(m, 6)) && FlagsOf(MakePte(m, 6)) == 7
    {
    }

    /** The failure path: after the range was taken down, the other mappings are those from the start. `h` is the state
    when memory ran out, `r` the one after `deallocuvm`. */
    static lemma UndoGrow(p: Phys, q: Phys, h: Phys, r: Phys, d: nat, first: nat, a: nat, last: nat)
      requires Inv(p) && Inv(q) && Growing(p, q, d, first, a) && SameTables(q, h) && first <= a <= last
      requires UnmapIs(h, r, d, first, last) && forall e: nat :: IsDir(q, e) ==> IsDir(h, e)
      ensures UnmapIs(p, r, d, first, last)
    {
      hide Inv, Pte;
      forall e: nat, x: nat, i: nat
        ensures UnmapAt(p, r, d, first, last, e, x, i)
      {
        if IsDir(p, e) {
          assert GrowAt(p, q, d, first, a, e, x, i) && GrowUse(p, q, d, first, a, e);
          SamePtes(q, h, e, x, i);
          assert UnmapAt(h, r, d, first, last, e, x, i);
          SameOrAbsent(p, h, r, e, x, i);
        }
      }
    }

    /** With no page of the range mapped before, that is everything as before. */
    static lemma NothingTakenDown(p: Phys, r: Phys, d: nat, first: nat, last: nat)
      requires Inv(p) && TakenDown(p, r, d, first, last, {})
      requires first <= last && FirstMapped(p, d, first, last) == last
      ensures SameMap(p, r) && Kept(p, r, d, {})
    {
      hide Inv, Pte;
      forall e: nat, x: nat, i: nat
        ensures IsDir(p, e) ==> SamePte(p, r, e, x, i)
      {
        assert UnmapAt(p, r, d, first, last, e, x, i);
        OutOfTable(p.mem, r.mem, e, x, i);
        SplitPage(x * NENTRIES + i, x, i);
        assert first <= x * NENTRIES + i < last ==> !IsMapped(p, d, x * NENTRIES + i);
      }
      forall g: nat | g in p.owner
        ensures g !in RangePages(p, d, first, last)
      {
        NoPageThere(p, d, first, last, g);
      }
      assert {} + RangePages(p, d, first, last) == {};
    }

    static lemma NoPageThere(p: Phys, d: nat, first: nat, last: nat, g: nat)
      requires Inv(p) && g in p.owner && first <= last && FirstMapped(p, d, first, last) == last
      ensures !InRange(p.owner[g], d, first, last)
    {
      assert UseOk(p, g);
      if p.owner[g].User? {
        var v := p.owner[g].x * NENTRIES + p.owner[g].i;
        SplitPage(v, p.owner[g].x, p.owner[g].i);
        assert first <= v < last ==> !IsMapped(p, d, v);
      }
    }

    static lemma OutOfTable(mem: seq<Page>, now: seq<Page>, e: nat, x: nat, i: nat)
      ensures !(x < NENTRIES && i < NENTRIES) ==> Pte(mem, e, x, i) == Pte(now, e, x, i) == 0
    {
    }

    /** The pages in use on the failure path: new tables are all that stays. */
    static lemma UndoUse(p: Phys, q: Phys, h: Phys, r: Phys, d: nat, first: nat, a: nat, last: nat, but: set<nat>)
      requires Growing(p, q, d, first, a) && first <= a <= last
      requires (forall g: nat :: g in h.owner <==> g in q.owner || g in but) &&
                (forall g: nat :: g in q.owner ==> h.owner[g] == q.owner[g])
      requires forall g: nat :: g in but ==> g !in q.owner && h.owner[g] == Kernel
      requires |h.mem| == |q.mem| && forall g: nat :: g in q.owner && g < |q.mem| ==> h.mem[g] == q.mem[g]
      requires r.owner == Dropped(h.owner, d, first, last) && KeepsContents(h, r, d)
      ensures Kept(p, r, d, but + RangePages(p, d, first, last))
    {
      var gone := RangePages(p, d, first, last);
      forall g: nat
        ensures g in p.owner && g !in gone ==> g in r.owner && r.owner[g] == p.owner[g]
        ensures g in p.owner && g !in gone && (p.owner[g].Kernel? || p.owner[g].User?) && g < |p.mem| ==>
                  r.mem[g] == p.mem[g]
        ensures g in r.owner && g !in but && g !in p.owner ==> r.owner[g].Table? && r.owner[g].d == d
      {
        assert GrowUse(p, q, d, first, a, g);
      }
    }

    /** What a failed attempt leaves of a range: no mappings, and nothing taken but tables of the directory and the
    pages in `but`. */
    static ghost predicate TakenDown(p: Phys, r: Phys, d: nat, first: nat, last: nat, but: set<nat>) {
      UnmapIs(p, r, d, first, last) && Kept(p, r, d, but + RangePages(p, d, first, last))
    }

    /** `deallocuvm` on the failure path of `allocuvm`. */
    method Undo(d: nat, oldsz: nat, newsz: nat, ghost a: nat, ghost p: Phys, ghost q: Phys, ghost but: set<nat>)
      requires Valid() && IsDir(Now(), d) && Inv(p) && Inv(q) && IsDir(p, d) && oldsz < newsz < KERNBASE
      requires RoundUp(oldsz) <= a <= RoundUp(newsz) && Growing(p, q, d, RoundUp(oldsz), a)
      requires SameTables(q, Now()) && (forall g: nat :: g in owner <==> g in q.owner || g in but)
      requires (forall g: nat :: g in q.owner ==> owner[g] == q.owner[g]) &&
                (forall g: nat :: g in but ==> g !in q.owner && owner[g] == Kernel)
      requires forall g: nat :: g in q.owner && g < |q.mem| ==> mem[g] == q.mem[g]
      modifies this
      ensures Valid() && IsDir(Now(), d) && TakenDown(p, Now(), d, RoundUp(oldsz), RoundUp(newsz), but)
      ensures forall g: nat :: g in but ==> g in owner && owner[g] == Kernel
    {
      hide Inv, Linked, Growing, UnmapIs, KeepsContents, RangePages;
      ghost var h, first, last := Now(), RoundUp(oldsz), RoundUp(newsz);
      PagesBelow(newsz, 0);
      var sz := Deallocuvm(d, newsz, oldsz);
      UndoGrow(p, q, h, Now(), d, first, a, last);
      UndoUse(p, q, h, Now(), d, first, a, last, but);
    }

    /** The page in hand is given back last. */
    method GiveInHand(d: nat, m: nat, ghost p: Phys, ghost first: nat, ghost last: nat)
      requires Valid() && IsDir(Now(), d) && m in owner && owner[m] == Kernel && m !in p.owner
      requires Inv(p) && IsDir(p, d) && TakenDown(p, Now(), d, first, last, {m})
      modifies this
      ensures Valid() && IsDir(Now(), d) && TakenDown(p, Now(), d, first, last, {})
    {
      hide Inv, Linked, UnmapIs, TakenDown;
      ghost var q := Now();
      Free(m);
      StillDown(p, q, Now(), d, first, last, m);
    }

    static lemma StillDown(p: Phys, q: Phys, r: Phys, d: nat, first: nat, last: nat, m: nat)
      requires Inv(p) && Inv(q) && TakenDown(p, q, d, first, last, {m}) && SameTables(q, r) && m !in p.owner
      requires r.owner == q.owner - {m} && forall g: nat :: g < |r.mem| && g != m ==> r.mem[g] == q.mem[g]
      ensures TakenDown(p, r, d, first, last, {})
    {
      hide Inv, Pte;
      assert {} + RangePages(p, d, first, last) == RangePages(p, d, first, last);
      forall e: nat, x: nat, i: nat
        ensures UnmapAt(p, r, d, first, last, e, x, i)
      {
        assert UnmapAt(p, q, d, first, last, e, x, i);
        if IsDir(p, e) {
          DirStays(p, q, d, first, last, m, e);
          SamePtes(q, r, e, x, i);
        }
      }
    }

    static lemma DirStays(p: Phys, q: Phys, d: nat, first: nat, last: nat, m: nat, e: nat)
      requires Kept(p, q, d, {m} + RangePages(p, d, first, last)) && m !in p.owner && IsDir(p, e)
      ensures IsDir(q, e)
    {
    }

    /** One turn of the loop of `allocuvm`, with its two ways to fail and the panic "remap" of `mappages`. */
    method AllocTurn(d: nat, oldsz: nat, newsz: nat, a: nat, ghost p: Phys, ghost u: nat) returns (r: MapResult)
      requires Valid() && IsDir(Now(), d) && Inv(p) && IsDir(p, d) && oldsz <= newsz < KERNBASE
      requires RoundUp(oldsz) <= a < RoundUp(newsz) && Growing(p, Now(), d, RoundUp(oldsz), a)
      requires u == FirstMapped(p, d, RoundUp(oldsz), RoundUp(newsz)) && a <= u && RoundUp(newsz) <= USER * NENTRIES
      requires TookUpTo(p, Now(), d, RoundUp(oldsz), a, true)
      modifies this
      ensures r != Remap ==> Valid() && IsDir(Now(), d)
      ensures r == Mapped ==>
                && Growing(p, Now(), d, RoundUp(oldsz), a + 1) && TookUpTo(p, Now(), d, RoundUp(oldsz), a + 1, true)
                && a < u
      ensures r == NoMemory ==>
                && TakenDown(p, Now(), d, RoundUp(oldsz), RoundUp(newsz), {})
                && |p.free| < GrowCost(p.mem[d], RoundUp(oldsz), u, RoundUp(newsz))
      ensures r == Remap ==> u < RoundUp(newsz) && |p.free| >= GrowCost(p.mem[d], RoundUp(oldsz), u, RoundUp(newsz))
    {
      hide Inv, Linked, Growing, MapIs, Kept, UserFrames, Given, UnmapIs, SameMap, Dropped, KeepsContents, IsMapped;
      hide Took, TookUpTo, Cost, FirstMapped, TakenDown;
      ghost var q, first, last := Now(), RoundUp(oldsz), RoundUp(newsz);
      PagesBelow(newsz, a);
      InUseStays(p, q, d, first, a);
      MappedAsBefore(p, q, d, first, a, last, u);
      var page := Alloc();
      if page == None {
        NoPageLeft(p, q, d, first, a, u, last);
        Undo(d, oldsz, newsz, a, p, q, {});
        return NoMemory;
      }
      var m := page.value;
      Zero(m);
      ghost var h := Now();
      OnlyFrame(a, m);
      StillSo(q, h, d, a);
      OneAddress(h, d, a);
      ghost var done;
      r, done := Mappages(d, a * PGSIZE, PGSIZE, m, PTE_W + PTE_U);
      if r == Mapped {
        GivenIs(h, Now(), d, a, m);
        GrowOne(p, q, h, Now(), d, first, a, m);
        OneTable(h, Now(), d, a);
        TookOneMore(p, q, h, Now(), d, first, a, true);
        return;
      }
      if r == Remap {
        PageInHand(p, q, d, first, u, last);
        return;
      }
      NoTable(h, d, a);
      TooFew(p, q, d, first, a, u, true);
      GrowCostOf(p.mem[d], first, u, last);
      Undo(d, oldsz, newsz, a, p, q, {m});
      GiveInHand(d, m, p, first, last);
    }

    /** The free pages that it takes to get to the end of the range, or to the page that was mapped before, with the
    page in hand that is meant for it. */
    static function GrowCost(dir: Page, first: nat, u: nat, last: nat): nat
      requires u <= NENTRIES * NENTRIES
    {
      Cost(dir, first, u, true) + if u < last then 1 else 0
    }

    static lemma GrowCostOf(dir: Page, first: nat, u: nat, last: nat)
      requires u <= NENTRIES * NENTRIES
      ensures GrowCost(dir, first, u, last) >= Cost(dir, first, u, true)
    {
    }

    static lemma NoPageLeft(p: Phys, q: Phys, d: nat, first: nat, a: nat, u: nat, last: nat)
      requires TookUpTo(p, q, d, first, a, true) && |q.free| == 0 && a <= u <= last <= NENTRIES * NENTRIES && a < last
      ensures |p.free| < GrowCost(p.mem[d], first, u, last)
    {
      if a < u {
        TooFew(p, q, d, first, a, u, true);
      } else {
        TookAll(p, q, d, first, u, true);
      }
    }

    static lemma PageInHand(p: Phys, q: Phys, d: nat, first: nat, u: nat, last: nat)
      requires TookUpTo(p, q, d, first, u, true) && |q.free| > 0 && u <= NENTRIES * NENTRIES
      ensures |p.free| >= GrowCost(p.mem[d], first, u, last)
    {
      TookAll(p, q, d, first, u, true);
    }

    /** The page at hand is mapped exactly if it is the one that was mapped at the start. */
    static lemma MappedAsBefore(p: Phys, q: Phys, d: nat, first: nat, a: nat, last: nat, u: nat)
      requires Inv(q) && Growing(p, q, d, first, a) && IsDir(p, d) && first <= a < last <= USER * NENTRIES && a <= u
      requires u == FirstMapped(p, d, first, last)
      ensures IsMapped(q, d, a) <==> a == u
    {
      hide Inv, Pte;
      SplitPage(a, 0, 0);
      assert GrowAt(p, q, d, first, a, d, a / NENTRIES, a % NENTRIES);
      assert IsMapped(p, d, a) <==> a == u;
    }

    static lemma OneAddress(h: Phys, d: nat, a: nat)
      requires d < |h.mem| && a < NENTRIES * NENTRIES
      ensures FirstMapped(h, d, a, a + 1) == (if IsMapped(h, d, a) then a else a + 1) &&
                Cost(h.mem[d], a, a, false) == 0
    {
    }

    static lemma StillSo(q: Phys, h: Phys, d: nat, a: nat)
      requires Inv(q) && SameTables(q, h) && IsDir(q, d)
      ensures IsMapped(h, d, a) <==> IsMapped(q, d, a)
    {
      hide Inv, Pte;
      SamePtes(q, h, d, a / NENTRIES, a % NENTRIES);
    }

    static lemma InUseStays(p: Phys, q: Phys, d: nat, first: nat, a: nat)
      requires Growing(p, q, d, first, a)
      ensures forall g: nat :: g in p.owner ==> g in q.owner
    {
      forall g: nat | g in p.owner
        ensures g in q.owner
      {
        assert GrowUse(p, q, d, first, a, g);
      }
    }

    static lemma OnlyFrame(a: nat, m: nat)
      requires a < USER * NENTRIES
      ensures a * PGSIZE / PGSIZE == a && (a * PGSIZE + PGSIZE - 1) / PGSIZE == a && UserFrames(a, m, 1) == {m}
      ensures a * PGSIZE + PGSIZE <= 0x1_0000_0000
    {
      assert IsUserFrame(a, m, 1, m);
    }

    static lemma GivenIs(h: Phys, r: Phys, d: nat, a: nat, m: nat)
      requires Given(h, r, d, a, 1, m) && a < USER * NENTRIES
      ensures m in r.owner && r.owner[m] == User(d, a / NENTRIES, a % NENTRIES) && m < |h.mem| == |r.mem| &&
                r.mem[m] == h.mem[m]
    {
      OnlyFrame(a, m);
    }

    /** `allocuvm` maps fresh zeroed pages, writable by the user, at every address from the old size up to the new. It
    panics at the first page of them that was mapped before, if memory lasts till there. On want of memory nothing of
    the range is mapped, nothing else changes, and nothing but tables of the directory stays taken; that is so exactly
    when there are fewer free pages than new pages and tables they lack. */
    method Allocuvm(d: nat, oldsz: nat, newsz: nat) returns (r: Option<nat>)
      requires Valid() && IsDir(Now(), d)
      modifies this
      ensures newsz >= KERNBASE ==> r == Some(0) && unchanged(this)
      ensures newsz < oldsz && newsz < KERNBASE ==> r == Some(oldsz) && unchanged(this)
      ensures oldsz <= newsz < KERNBASE ==>
                && RoundUp(oldsz) <= RoundUp(newsz) <= USER * NENTRIES
                && var p, first, last := old(Now()), RoundUp(oldsz), RoundUp(newsz);
                   var u := FirstMapped(p, d, first, last);
                && (|p.free| < GrowCost(p.mem[d], first, u, last) ==>
                     && r == Some(0) && Valid() && IsDir(Now(), d) && TakenDown(p, Now(), d, first, last, {})
                     && (u == last ==> SameMap(p, Now()) && Kept(p, Now(), d, {})))
                && (|p.free| >= GrowCost(p.mem[d], first, u, last) && u < last ==> r == None)
                && (|p.free| >= GrowCost(p.mem[d], first, u, last) && u == last ==>
                     && r == Some(newsz) && Valid() && IsDir(Now(), d) && Growing(p, Now(), d, first, last)
                     && |free| == |p.free| - Cost(p.mem[d], first, last, true))
    {
      hide Inv, Linked, Growing, SameMap, Kept, TakenDown, IsMapped, Took, TookUpTo, Cost;
      if newsz >= KERNBASE {
        return Some(0);
      }
      if newsz < oldsz {
        return Some(oldsz);
      }
      ghost var p := Now();
      var a := RoundUp(oldsz);
      GrowNothing(p, d, a);
      PagesBelow(newsz, a);
      RoundUpGrows(oldsz, newsz);
      TookNothing(p, d, a, true);
      ghost var last := RoundUp(newsz);
      ghost var u := FirstMapped(p, d, a, last);
      while a * PGSIZE < newsz
        invariant RoundUp(oldsz) <= a <= u && (a * PGSIZE < newsz <==> a < last)
        invariant Valid() && IsDir(Now(), d) && Growing(p, Now(), d, RoundUp(oldsz), a)
        invariant TookUpTo(p, Now(), d, RoundUp(oldsz), a, true)
        decreases newsz - a * PGSIZE
      {
        var turn := AllocTurn(d, oldsz, newsz, a, p, u);
        if turn == NoMemory {
          if u == last {
            NothingTakenDown(p, Now(), d, RoundUp(oldsz), last);
          }
          return Some(0);
        }
        if turn == Remap {
          return None;
        }
        a := a + 1;
        PagesBelow(newsz, a);
      }
      TookAll(p, Now(), d, RoundUp(oldsz), last, true);
      return Some(newsz);
    }

    static lemma RoundUpGrows(a: nat, b: nat)
      requires a <= b
      ensures RoundUp(a) <= RoundUp(b)
    {
    }

    // ----- copying

    /** What `copyuvm` has made of one address of the new directory when it has reached page `a`: the flags of the
    source, on a page of its own with the source's contents. Other directories are as before. */
    static predicate CopyAt(p: Phys, q: Phys, d: nat, c: nat, a: nat, e: nat, x: nat, i: nat) {
      && (IsDir(p, e) ==> SamePte(p, q, e, x, i))
      && (x < USER && i < NENTRIES ==>
            var w := Pte(q.mem, c, x, i);
            if x * NENTRIES + i < a then
              var o := Pte(p.mem, d, x, i);
              && Present(w) && Present(o) && FlagsOf(w) == FlagsOf(o)
              && FrameOf(w) < |q.mem| == |p.mem| && FrameOf(o) < |p.mem| && q.mem[FrameOf(w)] == p.mem[FrameOf(o)]
              && FrameOf(w) !in p.owner
            else !Present(w))
    }

    /** What was in use stays so; what is new belongs to the new directory. */
    static predicate CopyUse(p: Phys, q: Phys, c: nat, g: nat) {
      && (g in p.owner ==> g in q.owner && q.owner[g] == p.owner[g])
      && (g in p.owner && (p.owner[g].Kernel? || p.owner[g].User?) && g < |p.mem| && g < |q.mem| ==>
           q.mem[g] == p.mem[g])
      && (g in q.owner && g !in p.owner ==>
            g == c || (q.owner[g].Table? && q.owner[g].d == c) || (q.owner[g].User? && q.owner[g].d == c))
    }

    static ghost predicate Copying(p: Phys, q: Phys, d: nat, c: nat, a: nat) {
      && |q.mem| == |p.mem| && c !in p.owner && IsDir(q, c)
      && (forall e: nat, x: nat, i: nat :: CopyAt(p, q, d, c, a, e, x, i))
      && (forall g: nat :: CopyUse(p, q, c, g))
    }

    static lemma CopyUseAt(p: Phys, q: Phys, d: nat, c: nat, a: nat, g: nat)
      requires Copying(p, q, d, c, a)
      ensures CopyUse(p, q, c, g) && |q.mem| == |p.mem|
    {
    }

    /** Freeing the new directory gives back exactly what was taken. */
    static lemma CopyUndone(p: Phys, q: Phys, now: map<nat, Use>, d: nat, c: nat, a: nat)
      requires Inv(p) && Copying(p, q, d, c, a) && now == Without(q.owner, c)
      ensures now == p.owner
    {
      forall g: nat
        ensures g in now <==> g in p.owner
        ensures g in now ==> now[g] == p.owner[g]
      {
        assert CopyUse(p, q, c, g) && UseOk(p, g);
        if g in p.owner && p.owner[g].Table? {
          assert p.owner[g].d in p.owner;
        }
      }
    }

    // ----- the kernel part

    /** The table of kernel mappings: first virtual page, number of pages, first page of memory, permission. */
    function Kmap(k: nat): (nat, nat, nat, nat)
      requires k < 4 && 0x100 < data < TOP
    {
      match k
      case 0 => (0x80000, 0x100, 0, PTE_W)
      case 1 => (0x80100, data - 0x100, 0x100, 0)
      case 2 => (0x80000 + data, TOP - data, data, PTE_W)
      case _ => (0xFE000, 0x2000, 0xFE000, PTE_W)
    }

    /** The entry of virtual page `v` when the first `n` kernel mappings are there; 0 for none. */
    function KernelPte(n: nat, v: nat): nat
      requires n <= 4 && 0x100 < data < TOP
    {
      if n > 0 && 0x80000 <= v < 0x80100 then MakePte(v - 0x80000, PTE_W)
      else if n > 1 && 0x80100 <= v < 0x80000 + data then MakePte(v - 0x80000, 0)
      else if n > 2 && 0x80000 + data <= v < 0x80000 + TOP then MakePte(v - 0x80000, PTE_W)
      else if n > 3 && 0xFE000 <= v < 0x10_0000 then MakePte(v, PTE_W)
      else 0
    }

    predicate KernelAt(q: Phys, d: nat, n: nat, x: nat, i: nat)
      requires n <= 4 && 0x100 < data < TOP
    {
      x < NENTRIES && i < NENTRIES ==>
        var w := KernelPte(n, x * NENTRIES + i);
        if w == 0 then !Present(Pte(q.mem, d, x, i)) else Pte(q.mem, d, x, i) == w
    }

    /** Directory `d` maps what the first `n` kernel mappings say, and nothing else. */
    ghost predicate IsKernelMap(q: Phys, d: nat, n: nat)
      requires n <= 4 && 0x100 < data < TOP
    {
      forall x: nat, i: nat :: KernelAt(q, d, n, x, i)
    }

    /** What the processor sees at virtual page `v` with the kernel mapped: memory from 2 GB on, devices from 0xFE000
    on, and nothing else. No page is for the user; all are writable, but for the kernel's text and constants. */
    predicate KernelPage(q: Phys, d: nat, v: nat) {
      var w := Pte(q.mem, d, v / 1024, v % 1024);
      if 0x8_0000 <= v < 0x8_E000 then
        w / 4096 == v - 0x8_0000 && w % 4096 == if 0x8_0100 <= v < 0x8_0000 + data then 1 else 3
      else if 0xF_E000 <= v < 0x10_0000 then w / 4096 == v && w % 4096 == 3
      else !Present(w)
    }

    lemma KernelPages(q: Phys, d: nat)
      requires 0x100 < data < TOP && IsKernelMap(q, d, 4)
      ensures forall v: nat :: KernelPage(q, d, v)
    {
      hide Pte;
      forall v: nat
        ensures KernelPage(q, d, v)
      {
        if v < 0x10_0000 {
          SplitPage(v, 0, 0);
          assert KernelAt(q, d, 4, v / NENTRIES, v % NENTRIES);
        } else {
          OutOfTable(q.mem, q.mem, d, v / NENTRIES, v % NENTRIES);
        }
      }
    }

    lemma NoKernelMapYet(q: Phys, d: nat)
      requires 0x100 < data < TOP && forall x: nat, i: nat :: !Present(Pte(q.mem, d, x, i))
      ensures IsKernelMap(q, d, 0)
    {
    }

    lemma KernelStep(q: Phys, r: Phys, d: nat, n: nat)
      requires n < 4 && 0x100 < data < TOP && IsDir(q, d) && IsKernelMap(q, d, n)
      requires var (v, cnt, f, perm) := Kmap(n); MapIs(q, r, d, v, cnt, f, perm)
      ensures IsKernelMap(r, d, n + 1)
    {
      hide Pte, MakePte;
      var (v, cnt, f, perm) := Kmap(n);
      var m := n + 1;
      forall x: nat, i: nat
        ensures KernelAt(r, d, m, x, i)
      {
        assert KernelAt(q, d, n, x, i);
        assert MapAt(q, r, d, v, cnt, f, perm, d, x, i);
      }
    }

    /** The tables that directory `d` has with the first `n` kernel mappings: those of the entries for which the kernel
    map is not empty. */
    predicate KernelTables(q: Phys, d: nat, n: nat)
      requires n <= 4 && 0x100 < data < TOP
    {
      d < |q.mem| && forall x: nat :: x < NENTRIES ==> (Present(q.mem[d][x]) <==> HasKernelTable(n, x))
    }

    predicate HasKernelTable(n: nat, x: nat)
      requires n <= 4 && 0x100 < data < TOP
    {
      USER <= x < LowTables(n) || (n == 4 && 0xFE000 / NENTRIES <= x)
    }

    /** The tables of the first `n` mappings below the devices end here. */
    function LowTables(n: nat): (x: nat)
      requires n <= 4 && 0x100 < data < TOP
      ensures USER <= x <= USER + TOP / NENTRIES
    {
      if n == 0 then USER else if n == 1 then USER + 1 else if n == 2 then (0x80000 + data - 1) / NENTRIES + 1
      else USER + TOP / NENTRIES
    }

    /** The free pages that `setupkvm` has used after `n` mappings: the directory and its tables. */
    function KernelCost(n: nat): nat
      requires n <= 4 && 0x100 < data < TOP
    {
      1 + LowTables(n) - USER + if n == 4 then NENTRIES - 0xFE000 / NENTRIES else 0
    }

    /** In all, 65 pages. */
    static const KERNELPAGES := 1 + TOP / NENTRIES + 8

    lemma KernelCostGrows(n: nat)
      requires n < 4 && 0x100 < data < TOP
      ensures KernelCost(n) <= KernelCost(n + 1) <= KernelCost(4) == KERNELPAGES
    {
    }

    /** What the next mapping lacks in tables. */
    lemma KernelStepCost(q: Phys, d: nat, n: nat)
      requires n < 4 && 0x100 < data < TOP && KernelTables(q, d, n)
      ensures Kmap(n).0 + Kmap(n).1 <= NENTRIES * NENTRIES
      ensures Cost(q.mem[d], Kmap(n).0, Kmap(n).0 + Kmap(n).1, false) == KernelCost(n + 1) - KernelCost(n)
    {
      var v, cnt := Kmap(n).0, Kmap(n).1;
      var lo, hi := v / NENTRIES, TableEnd(v, v + cnt);
      AbsentAbove(q.mem[d], lo, if n == 3 then lo else LowTables(n), hi);
    }

    /** The next mapping got its tables. */
    lemma KernelTablesGrow(q: Phys, r: Phys, d: nat, n: nat)
      requires n < 4 && 0x100 < data < TOP && KernelTables(q, d, n)
      requires TookUpTo(q, r, d, Kmap(n).0, Kmap(n).0 + Kmap(n).1, false)
      ensures KernelTables(r, d, n + 1) && |r.free| == |q.free| - (KernelCost(n + 1) - KernelCost(n))
    {
      KernelStepCost(q, d, n);
      var m := n + 1;
      forall x: nat | x < NENTRIES
        ensures Present(r.mem[d][x]) <==> HasKernelTable(m, x)
      {
        assert Present(q.mem[d][x]) <==> HasKernelTable(n, x);
      }
    }

    lemma NoKernelTablesYet(q: Phys, d: nat)
      requires 0x100 < data < TOP && d < |q.mem| && forall x: nat :: x < NENTRIES ==> q.mem[d][x] == 0
      ensures KernelTables(q, d, 0) && KernelCost(0) == 1
    {
    }

    /** With the kernel mapped, user addresses have no tables yet. */
    lemma UserTablesCost(q: Phys, d: nat, n: nat)
      requires 0x100 < data < TOP && KernelTables(q, d, 4) && n <= USER * NENTRIES
      ensures Cost(q.mem[d], 0, n, true) == n + (n + NENTRIES - 1) / NENTRIES
    {
      AbsentAbove(q.mem[d], 0, 0, TableEnd(0, n));
    }

    lemma NotYetMapped(q: Phys, d: nat, n: nat, v: nat)
      requires n < 4 && 0x100 < data < TOP && IsKernelMap(q, d, n)
      requires Kmap(n).0 <= v < Kmap(n).0 + Kmap(n).1
      ensures !IsMapped(q, d, v)
    {
      SplitPage(v, 0, 0);
      assert KernelAt(q, d, n, v / NENTRIES, v % NENTRIES);
    }

    /** Kernel mappings leave the rest of memory as it was. */
    static lemma KernelKeeps(p: Phys, q: Phys, r: Phys, d: nat, v: nat, cnt: nat, f: nat, perm: nat, done: nat)
      requires perm < PGSIZE && Copying(p, q, d, d, 0) && MapIs(q, r, d, v, done, f, perm) && v >= USER * NENTRIES
      requires Kept(q, r, d, UserFrames(v, f, done)) && IsDir(r, d) && Inv(p)
      ensures Copying(p, r, d, d, 0)
    {
      hide Inv, Pte, MakePte;
      assert UserFrames(v, f, done) == {};
      forall e: nat, x: nat, i: nat
        ensures CopyAt(p, r, d, d, 0, e, x, i)
      {
        assert CopyAt(p, q, d, d, 0, e, x, i) && CopyUse(p, q, d, e);
        assert MapAt(q, r, d, v, done, f, perm, e, x, i) && MapAt(q, r, d, v, done, f, perm, d, x, i);
        SameOrAbsent(p, q, r, e, x, i);
        OutOfTable(q.mem, r.mem, e, x, i);
      }
      forall g: nat
        ensures CopyUse(p, r, d, g)
      {
        assert CopyUse(p, q, d, g);
      }
    }

    /** A new directory starts without mappings. */
    static lemma StartCopy(p: Phys, q: Phys, r: Phys, d: nat)
      requires Inv(p) && Inv(q) && d !in p.owner && q.owner == p.owner[d := Kernel] && SameTables(p, q) &&
                d < |q.mem| == |p.mem|
      requires (forall g: nat :: g < |p.mem| && g != d ==> q.mem[g] == p.mem[g]) &&
                forall i: nat :: i < NENTRIES ==> q.mem[d][i] == 0
      requires r == q.(owner := q.owner[d := Dir])
      ensures Inv(r) && Copying(p, r, d, d, 0) && forall x: nat, i: nat :: !Present(Pte(r.mem, d, x, i))
    {
      assert Blank(q.mem[d]);
      DirKeepsInv(q, r, d);
      forall e: nat, x: nat, i: nat
        ensures CopyAt(p, r, d, d, 0, e, x, i)
      {
        if IsDir(p, e) {
          SamePtes(p, q, e, x, i);
        }
      }
    }

    /** What is left of a failed attempt: nothing. The pages in use, their contents and all mappings are as before. */
    ghost predicate Restored(p: Phys)
      reads this
    {
      && owner == p.owner && |mem| == |p.mem| && SameMap(p, Now())
      && forall g: nat :: g in owner && (owner[g].Kernel? || owner[g].User?) && g < |mem| ==> mem[g] == p.mem[g]
    }

    /** `freevm` on the failure path of `setupkvm` and `copyuvm`. */
    method Abandon(c: nat, ghost p: Phys, ghost d: nat, ghost a: nat)
      requires Valid() && IsDir(Now(), c) && Inv(p) && Copying(p, Now(), d, c, a)
      modifies this
      ensures Valid() && Restored(p)
    {
      hide Inv, Linked, Copying, Without;
      ghost var q := Now();
      Freevm(c);
      CopyUndone(p, q, owner, d, c, a);
      ghost var r := Now();
      forall e: nat, x: nat, i: nat
        ensures IsDir(p, e) ==> SamePte(p, r, e, x, i)
      {
        if IsDir(p, e) {
          AbandonedPte(p, q, r, d, c, a, e, x, i);
        }
      }
      CopyUseAt(p, q, d, c, a, 0);
      forall g: nat | g in owner && (owner[g].Kernel? || owner[g].User?) && g < |mem|
        ensures mem[g] == p.mem[g]
      {
        CopyUseAt(p, q, d, c, a, g);
      }
    }

    static lemma AbandonedPte(p: Phys, q: Phys, r: Phys, d: nat, c: nat, a: nat, e: nat, x: nat, i: nat)
      requires Inv(q) && Copying(p, q, d, c, a) && IsDir(p, e) && r.owner == p.owner && |r.mem| == |q.mem|
      requires forall g: nat :: g in r.owner && g < |q.mem| ==> r.mem[g] == q.mem[g]
      ensures SamePte(p, r, e, x, i)
    {
      assert CopyAt(p, q, d, c, a, e, x, i) && CopyUse(p, q, c, e);
      if x < NENTRIES && Present(q.mem[e][x]) {
        var t := FrameOf(q.mem[e][x]);
        TableIs(q, e, x);
        assert CopyUse(p, q, c, t);
      }
    }

    /** `setupkvm` makes a directory that maps the kernel and nothing else; without memory for it, nothing stays
      taken; that is so exactly with fewer than 65 free pages. */
    method Setupkvm() returns (r: Option<nat>)
      requires Valid() && 0x100 < data < TOP
      modifies this
      ensures Valid()
      ensures r == None <==> |old(free)| < KERNELPAGES
      ensures r == None ==> Restored(old(Now()))
      ensures r.Some? ==> Copying(old(Now()), Now(), r.value, r.value, 0)
      ensures r.Some? ==> forall v: nat :: KernelPage(Now(), r.value, v)
      ensures r.Some? ==> KernelTables(Now(), r.value, 4) && |free| == |old(free)| - KERNELPAGES
    {
      hide Inv, Linked, Copying, IsKernelMap, KernelPage, MapIs, Kept, SameMap, KernelTables, KernelCost;
      ghost var p := Now();
      var page := Alloc();
      if page == None {
        SameMapItself(p);
        KernelCostGrows(3);
        return None;
      }
      var pgdir := page.value;
      Zero(pgdir);
      ghost var q := Now();
      owner := owner[pgdir := Dir];
      StartCopy(p, q, Now(), pgdir);
      NoKernelMapYet(Now(), pgdir);
      NoKernelTablesYet(Now(), pgdir);
      var k := 0;
      while k < 4
        invariant 0 <= k <= 4 && Valid() && IsDir(Now(), pgdir)
        invariant Copying(p, Now(), pgdir, pgdir, 0) && IsKernelMap(Now(), pgdir, k)
        invariant KernelTables(Now(), pgdir, k) && |free| == |p.free| - KernelCost(k)
      {
        KernelCostGrows(k);
        var ok := MapKernel(pgdir, k, p);
        if !ok {
          Abandon(pgdir, p, pgdir, 0);
          return None;
        }
        k := k + 1;
      }
      KernelCostGrows(3);
      KernelPages(Now(), pgdir);
      return Some(pgdir);
    }

    /** One turn of the loop of `setupkvm`. */
    method MapKernel(d: nat, k: nat, ghost p: Phys) returns (ok: bool)
      requires Valid() && IsDir(Now(), d) && k < 4 && 0x100 < data < TOP && Inv(p)
      requires Copying(p, Now(), d, d, 0) && IsKernelMap(Now(), d, k) && KernelTables(Now(), d, k)
      modifies this
      ensures Valid() && IsDir(Now(), d) && Copying(p, Now(), d, d, 0)
      ensures ok ==> IsKernelMap(Now(), d, k + 1) && KernelTables(Now(), d, k + 1)
      ensures ok ==> |free| == |old(free)| - (KernelCost(k + 1) - KernelCost(k))
      ensures !ok ==> |old(free)| < KernelCost(k + 1) - KernelCost(k)
    {
      hide Inv, Linked, Copying, IsKernelMap, MapIs, Kept, KernelTables, KernelCost, Took, TookUpTo, Cost;
      ghost var q := Now();
      var (v, cnt, f, perm) := Kmap(k);
      assert forall m: nat :: UserFrames(v, f, m) == {};
      assert (v * PGSIZE + cnt * PGSIZE - 1) / PGSIZE == v + cnt - 1 && v * PGSIZE / PGSIZE == v;
      var r, done := Mappages(d, v * PGSIZE, cnt * PGSIZE, f, perm);
      KernelKeeps(p, q, Now(), d, v, cnt, f, perm, done);
      if r == Mapped {
        KernelStep(q, Now(), d, k);
        KernelTablesGrow(q, Now(), d, k);
        return true;
      }
      assert r == NoMemory by {
        if r == Remap {
          NotYetMapped(q, d, k, v + done);
        }
      }
      KernelStepCost(q, d, k);
      return false;
    }

    /** The source page of one turn: mapped in the source as at the start, with its contents from then. */
    static lemma SourcePage(p: Phys, q: Phys, d: nat, c: nat, a: nat)
      requires Inv(p) && Inv(q) && IsDir(p, d) && Copying(p, q, d, c, a) && a < USER * NENTRIES && IsMapped(p, d, a)
      ensures IsDir(q, d) && d != c
      ensures var o := Pte(p.mem, d, a / NENTRIES, a % NENTRIES);
        && Pte(q.mem, d, a / NENTRIES, a % NENTRIES) == o && Present(o) && Present(q.mem[d][a / NENTRIES])
        && FrameOf(o) in p.owner && p.owner[FrameOf(o)].User? && FrameOf(o) in q.owner && q.owner[FrameOf(o)].User?
        && FrameOf(o) < |p.mem| == |q.mem| && q.mem[FrameOf(o)] == p.mem[FrameOf(o)]
    {
      var x, i := a / NENTRIES, a % NENTRIES;
      var o := Pte(p.mem, d, x, i);
      assert PteOk(p, d, x, i);
      OwnedIs(p, FrameOf(o));
      assert CopyAt(p, q, d, c, a, d, x, i) && CopyUse(p, q, c, d) && CopyUse(p, q, c, FrameOf(o));
    }

    static lemma SourceDir(p: Phys, q: Phys, d: nat, c: nat, a: nat)
      requires Inv(p) && IsDir(p, d) && Copying(p, q, d, c, a) && a < USER * NENTRIES
      ensures IsDir(q, d) && (IsMapped(q, d, a) <==> IsMapped(p, d, a))
    {
      assert CopyAt(p, q, d, c, a, d, a / NENTRIES, a % NENTRIES) && CopyUse(p, q, c, d);
    }

    /** How many of the first `n` pages are mapped before the first that is not. */
    static function Leading(p: Phys, d: nat, n: nat): (m: nat)
      ensures m <= n && (m < n ==> !IsMapped(p, d, m)) && forall v: nat :: v < m ==> IsMapped(p, d, v)
    {
      if n == 0 then 0
      else
        var m := Leading(p, d, n - 1);
        if m == n - 1 && IsMapped(p, d, m) then n else m
    }

    /** The free pages that it takes to copy the first `n` pages: the kernel part, the copies and their tables. */
    static function CopyCost(n: nat): nat {
      KERNELPAGES + n + (n + NENTRIES - 1) / NENTRIES
    }

    /** The pages the copy has so far are its own. */
    static lemma CopiedPage(p: Phys, q: Phys, d: nat, c: nat, a: nat, x: nat, i: nat)
      requires Inv(q) && Copying(p, q, d, c, a) && x < USER && i < NENTRIES && x * NENTRIES + i < a
      ensures var w := Pte(q.mem, c, x, i); FrameOf(w) in q.owner && q.owner[FrameOf(w)] == User(c, x, i)
    {
      assert CopyAt(p, q, d, c, a, c, x, i);
      assert PteOk(q, c, x, i);
    }

    static lemma CopyOne(p: Phys, q: Phys, h: Phys, r: Phys, d: nat, c: nat, a: nat, m: nat, flags: nat)
      requires Inv(p) && Inv(q) && Inv(h) && IsDir(p, d) && Copying(p, q, d, c, a) && a < USER * NENTRIES &&
                IsMapped(p, d, a)
      requires flags == FlagsOf(Pte(p.mem, d, a / NENTRIES, a % NENTRIES))
      requires m !in q.owner && h.owner == q.owner[m := Kernel] && SameTables(q, h) && m < |q.mem| == |h.mem|
      requires forall g: nat :: g < |q.mem| && g != m ==> h.mem[g] == q.mem[g]
      requires var o := Pte(p.mem, d, a / NENTRIES, a % NENTRIES); FrameOf(o) < |p.mem| && h.mem[m] == p.mem[FrameOf(o)]
      requires MapIs(h, r, c, a, 1, m, flags) && Kept(h, r, c, {m}) && IsDir(r, c)
      requires m in r.owner && r.owner[m] == User(c, a / NENTRIES, a % NENTRIES) && |r.mem| == |h.mem| &&
                r.mem[m] == h.mem[m]
      ensures Copying(p, r, d, c, a + 1)
    {
      hide Inv, MakePte;
      var b := a + 1;
      forall e: nat, x: nat, i: nat
        ensures CopyAt(p, r, d, c, b, e, x, i)
      {
        CopyOneAt(p, q, h, r, d, c, a, m, flags, e, x, i);
      }
      forall g: nat
        ensures CopyUse(p, r, c, g)
      {
        assert CopyUse(p, q, c, g);
      }
    }

    static lemma CopyOneAt(p: Phys, q: Phys, h: Phys, r: Phys, d: nat, c: nat, a: nat, m: nat, flags: nat, e: nat,
                           x: nat, i: nat)
      requires Inv(p) && Inv(q) && Inv(h) && IsDir(p, d) && Copying(p, q, d, c, a) && a < USER * NENTRIES &&
                IsMapped(p, d, a)
      requires flags == FlagsOf(Pte(p.mem, d, a / NENTRIES, a % NENTRIES))
      requires m !in q.owner && h.owner == q.owner[m := Kernel] && SameTables(q, h) && m < |q.mem| == |h.mem|
      requires forall g: nat :: g < |q.mem| && g != m ==> h.mem[g] == q.mem[g]
      requires var o := Pte(p.mem, d, a / NENTRIES, a % NENTRIES); FrameOf(o) < |p.mem| && h.mem[m] == p.mem[FrameOf(o)]
      requires MapIs(h, r, c, a, 1, m, flags) && Kept(h, r, c, {m}) && |r.mem| == |h.mem| && r.mem[m] == h.mem[m]
      ensures CopyAt(p, r, d, c, a + 1, e, x, i)
    {
      hide Inv, Pte, MakePte, MapIs, Kept;
      assert CopyAt(p, q, d, c, a, e, x, i) && CopyUse(p, q, c, e) && CopyUse(p, q, c, m);
      if IsDir(p, e) {
        SamePtes(q, h, e, x, i);
        MapIsAt(h, r, c, a, 1, m, flags, e, x, i);
        SameOrAbsent(p, h, r, e, x, i);
        OutOfTable(p.mem, r.mem, e, x, i);
      }
      if x < USER && i < NENTRIES {
        SamePtes(q, h, c, x, i);
        MapIsAt(h, r, c, a, 1, m, flags, c, x, i);
        SplitPage(a, x, i);
        SameFlags(p, d, a, m, flags);
        SameOrAbsent(p, h, r, c, x, i);
        if x * NENTRIES + i < a {
          CopiedPage(p, q, d, c, a, x, i);
          KeptAt(h, r, c, {m}, FrameOf(Pte(q.mem, c, x, i)));
        }
      }
    }

    static lemma SameFlags(p: Phys, d: nat, a: nat, m: nat, flags: nat)
      requires IsMapped(p, d, a) && flags == FlagsOf(Pte(p.mem, d, a / NENTRIES, a % NENTRIES))
      ensures flags < PGSIZE && FlagsOf(MakePte(m, flags)) == flags
    {
      var w := Pte(p.mem, d, a / NENTRIES, a % NENTRIES);
      assert w == w / PGSIZE * PGSIZE + w % PGSIZE;
    }

    /** `memmove(mem, P2V(pa), PGSIZE)` */
    method CopyPage(m: nat, f: nat)
      requires Valid() && m in owner && owner[m] == Kernel && f < |mem|
      modifies `mem
      ensures Valid() && SameTables(old(Now()), Now()) && |mem| == |old(mem)| && m < |mem| && mem[m] == old(mem)[f]
      ensures mem == old(mem)[m := mem[m]]
    {
      ghost var p := Now();
      OwnedIs(p, m);
      mem := mem[m := mem[f]];
      WriteKeepsInv(p, Now(), m);
      LinkedStays(p.mem, mem, freelist, free);
    }

    /** The entry of the source page; `None` are the two panics of `copyuvm`. */
    method SourcePte(d: nat, c: nat, a: nat, ghost p: Phys) returns (pte: Option<nat>)
      requires Valid() && IsDir(Now(), c) && Inv(p) && IsDir(p, d) && Copying(p, Now(), d, c, a)
      requires a < USER * NENTRIES
      modifies this
      ensures unchanged(this) && (pte == None <==> !IsMapped(p, d, a))
      ensures pte.Some? ==>
                && pte.value == Pte(p.mem, d, a / NENTRIES, a % NENTRIES) && IsDir(Now(), d)
                && FrameOf(pte.value) < |mem| == |p.mem| && mem[FrameOf(pte.value)] == p.mem[FrameOf(pte.value)]
    {
      hide Inv, Linked, Copying, Kept, SameMap;
      ghost var q := Now();
      SourceDir(p, q, d, c, a);
      var pgtab := Walkpgdir(d, a, false);
      if pgtab == None {
        return None;
      }
      TableIs(q, d, a / NENTRIES);
      var w := mem[pgtab.value][a % NENTRIES];
      if !Present(w) {
        return None;
      }
      SourcePage(p, q, d, c, a);
      pte := Some(w);
    }

    /** The rest of a turn of the loop of `copyuvm`. */
    method CopyTurn(d: nat, c: nat, a: nat, pte: nat, ghost p: Phys, ghost s: Phys, ghost last: nat) returns (ok: bool)
      requires Valid() && IsDir(Now(), c) && Inv(p) && IsDir(p, d) && Copying(p, Now(), d, c, a)
      requires a < last <= USER * NENTRIES && IsMapped(p, d, a) && TookUpTo(s, Now(), c, 0, a, true)
      requires pte == Pte(p.mem, d, a / NENTRIES, a % NENTRIES)
      requires FrameOf(pte) < |mem| == |p.mem| && mem[FrameOf(pte)] == p.mem[FrameOf(pte)]
      modifies this
      ensures Valid() && IsDir(Now(), c) && Copying(p, Now(), d, c, if ok then a + 1 else a)
      ensures if ok then TookUpTo(s, Now(), c, 0, a + 1, true) else |s.free| < Cost(s.mem[c], 0, last, true)
    {
      hide Inv, Linked, Copying, MapIs, Kept, UserFrames, Given, SameMap, IsMapped, Took, TookUpTo, Cost;
      ghost var q := Now();
      var pa, flags := FrameOf(pte), FlagsOf(pte);
      var page := Alloc();
      if page == None {
        TooFew(s, q, c, 0, a, last, true);
        return false;
      }
      var m := page.value;
      CopyPage(m, pa);
      ghost var h := Now();
      OnlyFrame(a, m);
      var r, done := Mappages(c, a * PGSIZE, PGSIZE, m, flags);
      if r == Mapped {
        GivenIs(h, Now(), c, a, m);
        CopyOne(p, q, h, Now(), d, c, a, m, flags);
        OneTable(h, Now(), c, a);
        TookOneMore(s, q, h, Now(), c, 0, a, true);
        return true;
      }
      assert r == NoMemory by { NotYetCopied(p, q, h, d, c, a); }
      NoTable(h, c, a);
      TooFew(s, q, c, 0, a, last, true);
      Free(m);
      SameAgain(p, q, h, Now(), d, c, a, m);
      ok := false;
    }

    static lemma NotYetCopied(p: Phys, q: Phys, h: Phys, d: nat, c: nat, a: nat)
      requires Inv(q) && Copying(p, q, d, c, a) && SameTables(q, h) && a < USER * NENTRIES
      ensures !IsMapped(h, c, a)
    {
      SplitPage(a, 0, 0);
      assert CopyAt(p, q, d, c, a, c, a / NENTRIES, a % NENTRIES);
      SamePtes(q, h, c, a / NENTRIES, a % NENTRIES);
    }

    /** A page taken and given back leaves the copy as it was. */
    static lemma SameAgain(p: Phys, q: Phys, h: Phys, r: Phys, d: nat, c: nat, a: nat, m: nat)
      requires Inv(q) && Inv(h) && Copying(p, q, d, c, a) && m !in q.owner && h.owner == q.owner[m := Kernel] &&
                SameTables(q, h)
      requires SameTables(h, r) && r.owner == h.owner - {m} && m < |q.mem| == |h.mem| == |r.mem|
      requires forall g: nat :: g < |q.mem| && g != m ==> h.mem[g] == q.mem[g] && r.mem[g] == h.mem[g]
      ensures Copying(p, r, d, c, a)
    {
      assert r.owner == q.owner;
      hide Inv, Pte;
      forall e: nat, x: nat, i: nat
        ensures CopyAt(p, r, d, c, a, e, x, i)
      {
        assert CopyAt(p, q, d, c, a, e, x, i) && CopyUse(p, q, c, e);
        if IsDir(p, e) {
          SamePtes(q, h, e, x, i);
          SamePtes(h, r, e, x, i);
        }
        SamePtes(q, h, c, x, i);
        SamePtes(h, r, c, x, i);
        if x < USER && i < NENTRIES && x * NENTRIES + i < a {
          CopiedPage(p, q, d, c, a, x, i);
        }
      }
      forall g: nat
        ensures CopyUse(p, r, c, g)
      {
        assert CopyUse(p, q, c, g);
      }
    }

    /** `copyuvm` gives a new directory that maps every page up to `sz` with the flags of the source, on pages of its
    own with the source's contents. It panics at the first page that is not mapped in the source, if memory lasts till
    there. Without memory, everything is as before; that is so exactly when there are fewer free pages than for the
    kernel part, the pages copied and their tables. */
    method Copyuvm(d: nat, sz: nat) returns (r: CopyResult)
      requires Valid() && IsDir(Now(), d) && 0x100 < data < TOP && sz <= KERNBASE
      modifies this
      ensures r == CopyFails <==> |old(free)| < CopyCost(Leading(old(Now()), d, RoundUp(sz)))
      ensures r == Unmapped <==>
                |old(free)| >= CopyCost(Leading(old(Now()), d, RoundUp(sz))) &&
                Leading(old(Now()), d, RoundUp(sz)) < RoundUp(sz)
      ensures r == CopyFails ==> Valid() && Restored(old(Now()))
      ensures r.Copied? ==> Valid() && IsDir(Now(), r.c) && Copying(old(Now()), Now(), d, r.c, RoundUp(sz))
    {
      hide Inv, Linked, Copying, IsKernelMap, Restored, KernelTables, Took, TookUpTo, Cost, IsMapped;
      ghost var p, u := Now(), Leading(Now(), d, RoundUp(sz));
      var page := Setupkvm();
      if page == None {
        return CopyFails;
      }
      var c := page.value;
      StartAnySource(p, Now(), d, c);
      var a := 0;
      PagesBelow(sz, a);
      ghost var s := Now();
      UserTablesCost(s, c, u);
      TookNothing(s, c, 0, true);
      while a * PGSIZE < sz
        invariant a <= u && (a * PGSIZE < sz <==> a < RoundUp(sz))
        invariant Valid() && IsDir(Now(), c) && Copying(p, Now(), d, c, a) && TookUpTo(s, Now(), c, 0, a, true)
        decreases sz - a * PGSIZE
      {
        var pte := SourcePte(d, c, a, p);
        if pte == None {
          TookAll(s, Now(), c, 0, u, true);
          return Unmapped;
        }
        var ok := CopyTurn(d, c, a, pte.value, p, s, u);
        if !ok {
          Abandon(c, p, d, a);
          return CopyFails;
        }
        a := a + 1;
        PagesBelow(sz, a);
      }
      TookAll(s, Now(), c, 0, u, true);
      r := Copied(c);
    }

    static lemma StartAnySource(p: Phys, q: Phys, d: nat, c: nat)
      requires Copying(p, q, c, c, 0)
      ensures Copying(p, q, d, c, 0) && IsDir(q, c)
    {
      forall e: nat, x: nat, i: nat
        ensures CopyAt(p, q, d, c, 0, e, x, i)
      {
        assert CopyAt(p, q, c, c, 0, e, x, i);
      }
    }
  }

  datatype MapResult = Mapped | NoMemory | Remap

  /** `Unmapped` is a panic. */
  datatype CopyResult = Copied(c: nat) | CopyFails | Unmapped
}
