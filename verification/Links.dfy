/** Link counts and the directory tree.

A tree is the type, the link count and, for directories, the entry list of each inode. Its count is right when `nlink`
is the number of entries naming the inode, other than ".", in directories that are linked themselves.
 */
module Links {
  import opened Blocks
  import opened Dirents

  const ROOT := 1
  const T_DIR := 1
  const DOT: seq<Byte> := [46]
  const DOTDOT: seq<Byte> := [46, 46]
  const NO_ENTRY := Dirent(0, [])

  datatype Tree = Tree(typ: seq<int>, nlink: seq<int>, dirs: seq<seq<Dirent>>)

  predicate Shape(t: Tree) {
    |t.nlink| == |t.typ| == |t.dirs| && |t.typ| > ROOT
  }

  /** Record `k` of directory `d` counts as a link to inode `i`. */
  predicate Counts(t: Tree, d: nat, k: nat, i: nat)
    requires Shape(t)
  {
    d < |t.dirs| && k < |t.dirs[d]| && t.nlink[d] > 0 && t.dirs[d][k].inum == i && t.dirs[d][k].name != DOT
  }

  /** The places of the entries that count as links to inode `i`. */
  ghost function Named(t: Tree, i: nat): set<(nat, nat)>
    requires Shape(t)
  {
    set d: nat, k: nat | d < |t.dirs| && k < |t.dirs[d]| && Counts(t, d, k, i) :: (d, k)
  }

  /** Two live entries of a directory have different names. */
  predicate Differ(es: seq<Dirent>, j: nat, k: nat) {
    j < k < |es| && es[j].inum != 0 && es[k].inum != 0 ==> es[j].name != es[k].name
  }

  ghost predicate NoDuplicates(es: seq<Dirent>) {
    forall j: nat, k: nat :: Differ(es, j, k)
  }

  /** A directory starts with "." and "..", has no name twice, and is empty when it is unlinked. */
  ghost predicate DirOk(t: Tree, d: nat)
    requires Shape(t)
  {
    d < |t.typ| && t.typ[d] == T_DIR ==>
      var es := t.dirs[d];
      && |es| >= 2 && es[0] == Dirent(d, DOT) && es[1].name == DOTDOT && es[1].inum != 0
      && NoDuplicates(es)
      && (forall k: nat :: k < |es| ==> es[k].inum < |t.typ|)
      && (t.nlink[d] == 0 ==> forall k: nat :: 2 <= k < |es| ==> es[k].inum == 0)
  }

  /** Record `k` of directory `d` is an entry of a linked directory other than its first two. */
  predicate IsChild(t: Tree, d: nat, k: nat)
    requires Shape(t)
  {
    d < |t.typ| && 2 <= k < |t.dirs[d]| && t.nlink[d] > 0 && t.dirs[d][k].inum != 0
  }

  /** A directory named by such a record has that as its parent, and no second name. */
  ghost predicate ChildOk(t: Tree, d: nat, k: nat)
    requires Shape(t)
  {
    IsChild(t, d, k) ==>
      var s := t.dirs[d][k].inum;
      && s < |t.typ|
      && (t.typ[s] == T_DIR ==>
            && s != ROOT && |t.dirs[s]| > 1 && t.dirs[s][1].inum == d
            && forall j: nat :: 2 <= j < |t.dirs[d]| && t.dirs[d][j].inum == s ==> j == k)
  }

  /** The parent of a linked directory is one, and names it. */
  ghost predicate ParentOk(t: Tree, s: nat)
    requires Shape(t)
  {
    s < |t.typ| && s != ROOT && t.typ[s] == T_DIR && t.nlink[s] > 0 ==>
      && |t.dirs[s]| > 1
      && var p := t.dirs[s][1].inum;
      p < |t.typ| && t.typ[p] == T_DIR && t.nlink[p] > 0 && exists k: nat :: IsNamedBy(t, s, p, k)
  }

  predicate IsNamedBy(t: Tree, s: nat, p: nat, k: nat)
    requires Shape(t)
  {
    p < |t.dirs| && 2 <= k < |t.dirs[p]| && t.dirs[p][k].inum == s
  }

  /** A free inode has no links and no entries, and only directories have entries. */
  predicate InodeOk(t: Tree, i: nat)
    requires Shape(t)
  {
    i < |t.typ| ==> (t.typ[i] == 0 ==> t.nlink[i] == 0) && (t.typ[i] != T_DIR ==> t.dirs[i] == [])
  }

  /** The link count is the number of entries that link the inode. */
  ghost predicate CountOk(t: Tree, i: nat)
    requires Shape(t)
  {
    0 < i < |t.typ| ==> t.nlink[i] == |Named(t, i)|
  }

  ghost predicate Counted(t: Tree)
    requires Shape(t)
  {
    forall i: nat :: CountOk(t, i)
  }

  predicate RootOk(t: Tree)
    requires Shape(t)
  {
    && t.typ[0] == 0 && t.typ[ROOT] == T_DIR && t.nlink[ROOT] > 0
    && |t.dirs[ROOT]| > 1 && t.dirs[ROOT][1].inum == ROOT
  }

  ghost predicate TreeOk(t: Tree) {
    && Shape(t) && RootOk(t) && Counted(t)
    && (forall i: nat :: InodeOk(t, i)) && (forall d: nat :: DirOk(t, d))
    && (forall d: nat, k: nat :: ChildOk(t, d, k)) && (forall s: nat :: ParentOk(t, s))
  }

  lemma NamedAre(t: Tree, i: nat, d: nat, k: nat)
    requires Shape(t)
    ensures (d, k) in Named(t, i) <==> Counts(t, d, k, i)
  {
  }

  /** Only record 0 of a directory is called ".", and record 0 names the directory itself. */
  lemma OnlyFirstIsDot(t: Tree, d: nat, k: nat)
    requires TreeOk(t) && d < |t.typ| && k < |t.dirs[d]| && t.dirs[d][k].inum != 0
    ensures t.typ[d] == T_DIR && |t.dirs[d]| >= 2 && t.dirs[d][k].inum < |t.typ|
    ensures k > 0 ==> t.dirs[d][k].name != DOT
    ensures k >= 2 ==> t.dirs[d][k].name != DOTDOT
    ensures k == 0 ==> t.dirs[d][k].inum == d
  {
    assert InodeOk(t, d) && DirOk(t, d);
    assert Differ(t.dirs[d], 0, k) && Differ(t.dirs[d], 1, k);
    assert RootOk(t);
  }

  /** An inode some linked directory names has links, and is in use. */
  lemma NamedIsLinked(t: Tree, d: nat, k: nat)
    requires TreeOk(t) && d < |t.dirs| && k < |t.dirs[d]| && t.nlink[d] > 0 && t.dirs[d][k].inum != 0
    ensures var i := t.dirs[d][k].inum; i < |t.typ| && t.nlink[i] > 0 && t.typ[i] != 0
  {
    var i := t.dirs[d][k].inum;
    OnlyFirstIsDot(t, d, k);
    if k > 0 {
      NamedAre(t, i, d, k);
      assert CountOk(t, i) && Named(t, i) != {};
    }
    assert InodeOk(t, i);
  }

  /** No link count is negative. */
  lemma LinksAreCounted(t: Tree, i: nat)
    requires TreeOk(t) && i < |t.typ|
    ensures t.nlink[i] >= 0 && (i > 0 ==> t.nlink[i] == |Named(t, i)|)
    ensures t.typ[i] == 0 ==> t.nlink[i] == 0
    ensures t.typ[i] != T_DIR ==> t.dirs[i] == []
    ensures i == 0 ==> t.typ[i] == 0
  {
    assert CountOk(t, i) && InodeOk(t, i) && RootOk(t);
  }

  // ----- what the system calls do

  /** `create` of `name` in directory `dp` as inode `ip`, entered at record `k`. */
  function Created(t: Tree, dp: nat, name: seq<Byte>, ip: nat, ty: int, k: nat): Tree
    requires Shape(t) && dp < |t.typ| && ip < |t.typ| && dp != ip && k <= |t.dirs[dp]|
  {
    var links := t.nlink[ip := 1];
    var entered := t.dirs[dp := Put(t.dirs[dp], k, Dirent(ip, name))];
    if ty == T_DIR then
      Tree(t.typ[ip := ty], links[dp := links[dp] + 1], entered[ip := [Dirent(ip, DOT), Dirent(dp, DOTDOT)]])
    else Tree(t.typ[ip := ty], links, entered)
  }

  /** `link` of inode `ip` as `name` in `dp`. */
  function Linked(t: Tree, ip: nat, dp: nat, name: seq<Byte>, k: nat): Tree
    requires Shape(t) && dp < |t.typ| && ip < |t.typ| && k <= |t.dirs[dp]|
  {
    t.(nlink := t.nlink[ip := t.nlink[ip] + 1], dirs := t.dirs[dp := Put(t.dirs[dp], k, Dirent(ip, name))])
  }

  /** `unlink` of record `k` of `dp`. */
  function Unlinked(t: Tree, dp: nat, k: nat): Tree
    requires Shape(t) && dp < |t.typ| && k < |t.dirs[dp]| && t.dirs[dp][k].inum < |t.typ|
  {
    var ip := t.dirs[dp][k].inum;
    var links := if t.typ[ip] == T_DIR then t.nlink[dp := t.nlink[dp] - 1] else t.nlink;
    t.(nlink := links[ip := links[ip] - 1], dirs := t.dirs[dp := t.dirs[dp][k := NO_ENTRY]])
  }

  /** `iput` of the last reference to an inode without links. */
  function Freed(t: Tree, i: nat): Tree
    requires Shape(t) && i < |t.typ|
  {
    t.(typ := t.typ[i := 0], dirs := t.dirs[i := []])
  }

  /** `create` made inode `ip`, gave back the file that has the name, refused, or stopped. */
  datatype Outcome = Made(ip: nat) | Reused(ip: nat) | Refused | Panicked

  /** The guards of `create` when it makes a new inode: `dp` is a directory without that name, `ip` is free. */
  ghost predicate CanCreate(t: Tree, dp: nat, name: seq<Byte>, ip: nat, ty: int, k: nat) {
    && TreeOk(t) && dp < |t.typ| && 0 < ip < |t.typ| && t.typ[dp] == T_DIR && t.typ[ip] == 0 && ty != 0
    && Absent(t.dirs[dp], name) && FreeAt(t.dirs[dp], k)
  }

  /** What the guards say of the directory: its first two records are taken, the name is neither of them. */
  lemma PlaceForName(t: Tree, dp: nat, name: seq<Byte>, k: nat)
    requires TreeOk(t) && dp < |t.typ| && t.typ[dp] == T_DIR && Absent(t.dirs[dp], name) && FreeAt(t.dirs[dp], k)
    ensures k >= 2 && name != DOT && name != DOTDOT && dp != 0 && |t.dirs[dp]| >= 2
    ensures t.dirs[dp][1].inum != 0 && t.dirs[dp][1].name == DOTDOT && t.dirs[dp][0] == Dirent(dp, DOT)
  {
    assert DirOk(t, dp) && RootOk(t);
    assert !Names(t.dirs[dp][0], name) && !Names(t.dirs[dp][1], name);
  }

  lemma NamedGrows(t: Tree, e: Tree, i: nat, more: set<(nat, nat)>)
    requires Shape(t) && Shape(e)
    requires forall d: nat, k: nat :: Counts(e, d, k, i) <==> Counts(t, d, k, i) || (d, k) in more
    requires forall x :: x in more ==> !Counts(t, x.0, x.1, i)
    ensures |Named(e, i)| == |Named(t, i)| + |more|
  {
    assert Named(e, i) == Named(t, i) + more by {
      forall x: (nat, nat)
        ensures x in Named(e, i) <==> x in Named(t, i) + more
      {
        NamedAre(t, i, x.0, x.1);
        NamedAre(e, i, x.0, x.1);
      }
    }
    assert Named(t, i) !! more;
  }

  // ----- create

  /** Whether a record counts as a link after `create`. */
  lemma CountsAfterCreate(t: Tree, dp: nat, name: seq<Byte>, ip: nat, ty: int, k: nat, d: nat, j: nat, i: nat)
    requires Shape(t) && dp < |t.typ| && ip < |t.typ| && dp != ip && t.nlink[ip] == 0 && t.nlink[dp] > 0 && i != 0
    requires FreeAt(t.dirs[dp], k) && name != DOT && t.dirs[ip] == []
    ensures Counts(Created(t, dp, name, ip, ty, k), d, j, i) <==>
              Counts(t, d, j, i) || (i == ip && d == dp && j == k) || (ty == T_DIR && i == dp && d == ip && j == 1)
  {
    if d == ip || d == dp {
      assert Created(t, dp, name, ip, ty, k).nlink[d] > 0;
    }
  }

  /** The new entries are the only new links: the name, and ".." of a new directory. */
  lemma CreateCounts(t: Tree, dp: nat, name: seq<Byte>, ip: nat, ty: int, k: nat, i: nat)
    requires CanCreate(t, dp, name, ip, ty, k) && t.nlink[dp] > 0
    ensures CountOk(Created(t, dp, name, ip, ty, k), i)
  {
    PlaceForName(t, dp, name, k);
    LinksAreCounted(t, ip);
    if 0 < i < |t.typ| {
      LinksAreCounted(t, i);
      var e := Created(t, dp, name, ip, ty, k);
      var more := if i == ip then {(dp, k)} else if ty == T_DIR && i == dp then {(ip, 1)} else {};
      assert e.nlink[i] == t.nlink[i] + |more|;
      assert forall x :: x in more ==> !Counts(t, x.0, x.1, i);
      hide Counts, TreeOk, Named;
      forall d: nat, j: nat
        ensures Counts(e, d, j, i) <==> Counts(t, d, j, i) || (d, j) in more
      {
        CountsAfterCreate(t, dp, name, ip, ty, k, d, j, i);
      }
      NamedGrows(t, e, i, more);
    }
  }

  /** Entering a new name at a free record keeps a directory in order. */
  lemma PutKeepsDirOk(t: Tree, e: Tree, dp: nat, k: nat, x: Dirent)
    requires Shape(t) && Shape(e) && |e.typ| == |t.typ| && 0 < dp < |t.typ| && t.typ[dp] == T_DIR && DirOk(t, dp)
    requires FreeAt(t.dirs[dp], k) && Absent(t.dirs[dp], x.name) && x.inum < |t.typ|
    requires e.dirs[dp] == Put(t.dirs[dp], k, x) && e.nlink[dp] > 0
    ensures DirOk(e, dp)
  {
    var es, now := t.dirs[dp], e.dirs[dp];
    assert k >= 2;
    forall i: nat, j: nat
      ensures Differ(now, i, j)
    {
      if i < j < |now| && now[i].inum != 0 && now[j].inum != 0 {
        if i != k {
          assert !Names(es[i], x.name);
        }
        if j != k {
          assert !Names(es[j], x.name);
        }
        assert Differ(es, i, j);
      }
    }
  }

  lemma CreateKeepsDirs(t: Tree, dp: nat, name: seq<Byte>, ip: nat, ty: int, k: nat, d: nat)
    requires CanCreate(t, dp, name, ip, ty, k) && t.nlink[dp] > 0
    ensures DirOk(Created(t, dp, name, ip, ty, k), d)
  {
    var e := Created(t, dp, name, ip, ty, k);
    PlaceForName(t, dp, name, k);
    assert DirOk(t, d);
    if d == dp {
      PutKeepsDirOk(t, e, dp, k, Dirent(ip, name));
    }
  }

  /** No record of a linked directory names a free inode. */
  lemma FreeIsUnnamed(t: Tree, ip: nat, d: nat, j: nat)
    requires TreeOk(t) && 0 < ip < |t.typ| && t.typ[ip] == 0 && d < |t.dirs| && j < |t.dirs[d]| && t.nlink[d] > 0
    ensures t.dirs[d][j].inum != ip
  {
    if t.dirs[d][j].inum == ip {
      NamedIsLinked(t, d, j);
    }
  }

  lemma CreateKeepsChildren(t: Tree, dp: nat, name: seq<Byte>, ip: nat, ty: int, k: nat, d: nat, j: nat)
    requires CanCreate(t, dp, name, ip, ty, k) && t.nlink[dp] > 0
    ensures ChildOk(Created(t, dp, name, ip, ty, k), d, j)
  {
    var e := Created(t, dp, name, ip, ty, k);
    LinksAreCounted(t, ip);
    PlaceForName(t, dp, name, k);
    if IsChild(e, d, j) {
      if d == dp && j == k {
        forall x: nat | x < |t.dirs[dp]|
          ensures t.dirs[dp][x].inum != ip
        {
          FreeIsUnnamed(t, ip, dp, x);
        }
      } else {
        assert d != ip && e.dirs[d][j] == t.dirs[d][j];
        NamedIsLinked(t, d, j);
        FreeIsUnnamed(t, ip, d, j);
        assert ChildOk(t, d, j);
      }
    }
  }

  lemma CreateKeepsParents(t: Tree, dp: nat, name: seq<Byte>, ip: nat, ty: int, k: nat, s: nat)
    requires CanCreate(t, dp, name, ip, ty, k) && t.nlink[dp] > 0
    ensures ParentOk(Created(t, dp, name, ip, ty, k), s)
  {
    var e := Created(t, dp, name, ip, ty, k);
    PlaceForName(t, dp, name, k);
    if s == ip {
      assert IsNamedBy(e, ip, dp, k);
    } else if s < |t.typ| && s != ROOT && t.typ[s] == T_DIR && e.nlink[s] > 0 {
      assert ParentOk(t, s) && s != 0 by { assert RootOk(t); }
      var p := t.dirs[s][1].inum;
      var x: nat :| IsNamedBy(t, s, p, x);
      assert p != ip;
      assert IsNamedBy(e, s, p, x) && e.dirs[s][1] == t.dirs[s][1];
    }
  }

  /** `create` in a linked directory keeps the tree in order and every count right. */
  lemma CreateKeepsTree(t: Tree, dp: nat, name: seq<Byte>, ip: nat, ty: int, k: nat)
    requires CanCreate(t, dp, name, ip, ty, k) && t.nlink[dp] > 0
    ensures TreeOk(Created(t, dp, name, ip, ty, k))
  {
    var e := Created(t, dp, name, ip, ty, k);
    PlaceForName(t, dp, name, k);
    assert RootOk(t);
    hide DirOk, ChildOk, ParentOk, CountOk;
    forall i: nat
      ensures InodeOk(e, i) && CountOk(e, i) && DirOk(e, i) && ParentOk(e, i)
    {
      assert InodeOk(t, i);
      CreateCounts(t, dp, name, ip, ty, k, i);
      CreateKeepsDirs(t, dp, name, ip, ty, k, i);
      CreateKeepsParents(t, dp, name, ip, ty, k, i);
    }
    forall d: nat, j: nat
      ensures ChildOk(e, d, j)
    {
      CreateKeepsChildren(t, dp, name, ip, ty, k, d, j);
    }
  }

  lemma TwoPlaces(s: set<(nat, nat)>, x: (nat, nat), y: (nat, nat))
    requires x in s && y in s && x != y
    ensures |s| >= 2
  {
    assert s == (s - {x, y}) + {x, y};
  }

  /** In an unlinked directory, `create` makes a count wrong: a new file's entry counts for nothing, and a new
    directory's ".." links the directory again, so that its own stale ".." comes back to count. */
  lemma CreateInUnlinkedMiscounts(t: Tree, dp: nat, name: seq<Byte>, ip: nat, ty: int, k: nat)
    requires CanCreate(t, dp, name, ip, ty, k) && t.nlink[dp] == 0
    ensures !Counted(Created(t, dp, name, ip, ty, k))
  {
    PlaceForName(t, dp, name, k);
    LinksAreCounted(t, ip);
    if ty == T_DIR {
      StaleParentCounts(t, dp, name, ip, k);
    } else {
      var e := Created(t, dp, name, ip, ty, k);
      forall d: nat, j: nat
        ensures !Counts(e, d, j, ip)
      {
        if Counts(e, d, j, ip) {
          NamedAre(t, ip, d, j);
        }
      }
      assert Named(e, ip) == {};
      assert !CountOk(e, ip);
    }
  }

  lemma StaleParentCounts(t: Tree, dp: nat, name: seq<Byte>, ip: nat, k: nat)
    requires CanCreate(t, dp, name, ip, T_DIR, k) && t.nlink[dp] == 0
    ensures !Counted(Created(t, dp, name, ip, T_DIR, k))
  {
    var e := Created(t, dp, name, ip, T_DIR, k);
    PlaceForName(t, dp, name, k);
    OnlyFirstIsDot(t, dp, 1);
    var p := t.dirs[dp][1].inum;
    assert e.nlink[dp] == 1 && e.nlink[ip] == 1;
    NamedAre(e, p, dp, 1);
    NamedAre(e, dp, ip, 1);
    NamedAre(e, ip, dp, k);
    if p == dp {
      TwoPlaces(Named(e, dp), (dp, 1), (ip, 1));
      assert !CountOk(e, dp);
    } else if p == ip {
      TwoPlaces(Named(e, ip), (dp, 1), (dp, k));
      assert !CountOk(e, ip);
    } else {
      LinksAreCounted(t, p);
      LinksAreCounted(t, ip);
      forall d: nat, j: nat
        ensures Counts(t, d, j, p) ==> Counts(e, d, j, p)
      {
      }
      StaleParentGains(t, e, dp, ip, p);
      assert !CountOk(e, p);
    }
  }

  lemma StaleParentGains(t: Tree, e: Tree, dp: nat, ip: nat, p: nat)
    requires Shape(t) && Shape(e) && dp < |t.typ| && t.nlink[dp] == 0 && Counts(e, dp, 1, p)
    requires forall d: nat, j: nat :: Counts(t, d, j, p) ==> Counts(e, d, j, p)
    ensures |Named(e, p)| > |Named(t, p)|
  {
    var more := Named(t, p) + {(dp, 1)};
    assert more <= Named(e, p);
    assert Named(e, p) == more + (Named(e, p) - more);
  }

  /** So `create` keeps the counts right exactly when it works in a directory that is linked. */
  lemma CreateIsRightExactly(t: Tree, dp: nat, name: seq<Byte>, ip: nat, ty: int, k: nat)
    requires CanCreate(t, dp, name, ip, ty, k)
    ensures TreeOk(Created(t, dp, name, ip, ty, k)) <==> t.nlink[dp] != 0
    ensures Counted(Created(t, dp, name, ip, ty, k)) <==> t.nlink[dp] != 0
  {
    LinksAreCounted(t, dp);
    if t.nlink[dp] == 0 {
      CreateInUnlinkedMiscounts(t, dp, name, ip, ty, k);
    } else {
      CreateKeepsTree(t, dp, name, ip, ty, k);
    }
  }

  // ----- link

  /** The guards of `link`: `ip` is in use and no directory, `dp` is a directory without that name. */
  ghost predicate CanLink(t: Tree, ip: nat, dp: nat, name: seq<Byte>, k: nat) {
    && TreeOk(t) && dp < |t.typ| && ip < |t.typ| && t.typ[dp] == T_DIR && t.typ[ip] != 0 && t.typ[ip] != T_DIR
    && Absent(t.dirs[dp], name) && FreeAt(t.dirs[dp], k)
  }

  lemma CountsAfterLink(t: Tree, ip: nat, dp: nat, name: seq<Byte>, k: nat, d: nat, j: nat, i: nat)
    requires Shape(t) && dp < |t.typ| && ip < |t.typ| && dp != ip && t.nlink[dp] >= 0 && i != 0 && t.dirs[ip] == []
    requires FreeAt(t.dirs[dp], k) && name != DOT
    ensures Counts(Linked(t, ip, dp, name, k), d, j, i) <==>
              Counts(t, d, j, i) || (t.nlink[dp] > 0 && i == ip && d == dp && j == k)
  {
  }

  lemma LinkNames(t: Tree, ip: nat, dp: nat, name: seq<Byte>, k: nat, i: nat)
    requires CanLink(t, ip, dp, name, k) && 0 < i < |t.typ|
    ensures |Named(Linked(t, ip, dp, name, k), i)| == t.nlink[i] + if i == ip && t.nlink[dp] > 0 then 1 else 0
  {
    PlaceForName(t, dp, name, k);
    LinksAreCounted(t, ip);
    LinksAreCounted(t, dp);
    LinksAreCounted(t, i);
    var e := Linked(t, ip, dp, name, k);
    var more := if i == ip && t.nlink[dp] > 0 then {(dp, k)} else {};
    assert forall x :: x in more ==> !Counts(t, x.0, x.1, i);
    hide Counts, TreeOk, Named;
    forall d: nat, j: nat
      ensures Counts(e, d, j, i) <==> Counts(t, d, j, i) || (d, j) in more
    {
      CountsAfterLink(t, ip, dp, name, k, d, j, i);
    }
    NamedGrows(t, e, i, more);
  }

  lemma LinkKeepsDirs(t: Tree, ip: nat, dp: nat, name: seq<Byte>, k: nat, d: nat)
    requires CanLink(t, ip, dp, name, k) && t.nlink[dp] > 0
    ensures DirOk(Linked(t, ip, dp, name, k), d)
  {
    PlaceForName(t, dp, name, k);
    assert DirOk(t, d);
    if d == dp {
      PutKeepsDirOk(t, Linked(t, ip, dp, name, k), dp, k, Dirent(ip, name));
    }
  }

  lemma LinkKeepsChildren(t: Tree, ip: nat, dp: nat, name: seq<Byte>, k: nat, d: nat, j: nat)
    requires CanLink(t, ip, dp, name, k) && t.nlink[dp] > 0
    ensures ChildOk(Linked(t, ip, dp, name, k), d, j)
  {
    var e := Linked(t, ip, dp, name, k);
    PlaceForName(t, dp, name, k);
    LinksAreCounted(t, ip);
    if IsChild(e, d, j) && !(d == dp && j == k) {
      assert d != ip && e.dirs[d][j] == t.dirs[d][j];
      assert ChildOk(t, d, j);
    }
  }

  lemma LinkKeepsParents(t: Tree, ip: nat, dp: nat, name: seq<Byte>, k: nat, s: nat)
    requires CanLink(t, ip, dp, name, k) && t.nlink[dp] > 0
    ensures ParentOk(Linked(t, ip, dp, name, k), s)
  {
    var e := Linked(t, ip, dp, name, k);
    PlaceForName(t, dp, name, k);
    if s < |t.typ| && s != ROOT && t.typ[s] == T_DIR && e.nlink[s] > 0 {
      assert ParentOk(t, s) && s != 0 by { assert RootOk(t); }
      var p := t.dirs[s][1].inum;
      var x: nat :| IsNamedBy(t, s, p, x);
      assert IsNamedBy(e, s, p, x) && e.dirs[s][1] == t.dirs[s][1];
    }
  }

  lemma LinkKeepsTree(t: Tree, ip: nat, dp: nat, name: seq<Byte>, k: nat)
    requires CanLink(t, ip, dp, name, k) && t.nlink[dp] > 0
    ensures TreeOk(Linked(t, ip, dp, name, k))
  {
    var e := Linked(t, ip, dp, name, k);
    PlaceForName(t, dp, name, k);
    LinksAreCounted(t, ip);
    assert RootOk(t);
    hide DirOk, ChildOk, ParentOk, Named;
    forall i: nat
      ensures InodeOk(e, i) && CountOk(e, i) && DirOk(e, i) && ParentOk(e, i)
    {
      assert InodeOk(t, i);
      if 0 < i < |t.typ| {
        LinkNames(t, ip, dp, name, k, i);
      }
      LinkKeepsDirs(t, ip, dp, name, k, i);
      LinkKeepsParents(t, ip, dp, name, k, i);
    }
    forall d: nat, j: nat
      ensures ChildOk(e, d, j)
    {
      LinkKeepsChildren(t, ip, dp, name, k, d, j);
    }
  }

  /** `link` keeps every count right exactly when it works in a directory that is linked. */
  lemma LinkIsRightExactly(t: Tree, ip: nat, dp: nat, name: seq<Byte>, k: nat)
    requires CanLink(t, ip, dp, name, k)
    ensures TreeOk(Linked(t, ip, dp, name, k)) <==> t.nlink[dp] != 0
    ensures Counted(Linked(t, ip, dp, name, k)) <==> t.nlink[dp] != 0
  {
    LinksAreCounted(t, dp);
    LinksAreCounted(t, ip);
    if t.nlink[dp] > 0 {
      LinkKeepsTree(t, ip, dp, name, k);
    } else {
      LinkNames(t, ip, dp, name, k, ip);
      assert !CountOk(Linked(t, ip, dp, name, k), ip);
    }
  }

  // ----- unlink

  /** The guards of `unlink`: a live entry of a linked directory that is neither "." nor "..", and no full directory. */
  ghost predicate CanUnlink(t: Tree, dp: nat, k: nat) {
    && TreeOk(t) && dp < |t.typ| && t.nlink[dp] > 0 && k < |t.dirs[dp]|
    && t.dirs[dp][k].name != DOT && t.dirs[dp][k].name != DOTDOT && 0 < t.dirs[dp][k].inum < |t.typ|
    && var ip := t.dirs[dp][k].inum;
      t.typ[ip] == T_DIR ==> forall j: nat :: 2 <= j < |t.dirs[ip]| ==> t.dirs[ip][j].inum == 0
  }

  /** The only link to an empty directory is its name. */
  lemma OnlyNameOfEmpty(t: Tree, dp: nat, k: nat, d: nat, j: nat)
    requires CanUnlink(t, dp, k) && k >= 2 && t.typ[t.dirs[dp][k].inum] == T_DIR
    requires Counts(t, d, j, t.dirs[dp][k].inum)
    ensures d == dp && j == k
  {
    OnlyFirstIsDot(t, d, j);
    NamedIsLinked(t, d, j);
    assert ChildOk(t, dp, k) && ChildOk(t, d, j) && ParentOk(t, d) && RootOk(t) && DirOk(t, d);
    assert IsChild(t, dp, k);
    if j >= 2 {
      assert IsChild(t, d, j);
    }
  }

  lemma UnlinkedDirIsAlone(t: Tree, dp: nat, k: nat)
    requires CanUnlink(t, dp, k)
    ensures k >= 2 && t.typ[dp] == T_DIR && dp != 0
    ensures var ip := t.dirs[dp][k].inum;
      && t.nlink[ip] > 0 && ip != dp && ip != ROOT
      && (t.typ[ip] == T_DIR ==>
            |t.dirs[ip]| > 1 && t.dirs[ip][1] == Dirent(dp, DOTDOT) && t.nlink[ip] == 1)
  {
    var ip := t.dirs[dp][k].inum;
    OnlyFirstIsDot(t, dp, k);
    NamedIsLinked(t, dp, k);
    assert DirOk(t, dp) && DirOk(t, ip) && ChildOk(t, dp, k) && IsChild(t, dp, k) && RootOk(t);
    if t.typ[ip] == T_DIR {
      hide Named;
      forall x: (nat, nat) | x in Named(t, ip)
        ensures x == (dp, k)
      {
        NamedAre(t, ip, x.0, x.1);
        OnlyNameOfEmpty(t, dp, k, x.0, x.1);
      }
      NamedAre(t, ip, dp, k);
      assert Named(t, ip) == {(dp, k)};
      assert CountOk(t, ip);
    }
  }

  /** The directory stays linked: a subdirectory's ".." is not its only link. */
  lemma UnlinkedStaysLinked(t: Tree, dp: nat, k: nat)
    requires CanUnlink(t, dp, k)
    ensures Unlinked(t, dp, k).nlink[dp] > 0
  {
    UnlinkedDirIsAlone(t, dp, k);
    var ip := t.dirs[dp][k].inum;
    if t.typ[ip] == T_DIR {
      LinksAreCounted(t, dp);
      NamedAre(t, dp, ip, 1);
      if dp == ROOT {
        assert RootOk(t) && DirOk(t, ROOT);
        NamedAre(t, dp, ROOT, 1);
        TwoPlaces(Named(t, dp), (ip, 1), (ROOT, 1));
      } else {
        assert ParentOk(t, dp);
        var p := t.dirs[dp][1].inum;
        var x: nat :| IsNamedBy(t, dp, p, x);
        OnlyFirstIsDot(t, p, x);
        NamedAre(t, dp, p, x);
        TwoPlaces(Named(t, dp), (ip, 1), (p, x));
      }
    }
  }

  /** The places that stop counting when record `k` of `dp` is unlinked. */
  ghost predicate Lost(t: Tree, dp: nat, k: nat, d: nat, j: nat, i: nat)
    requires Shape(t) && dp < |t.typ| && k < |t.dirs[dp]| && t.dirs[dp][k].inum < |t.typ|
  {
    var ip := t.dirs[dp][k].inum;
    (d == dp && j == k && i == ip) || (t.typ[ip] == T_DIR && d == ip && j == 1 && i == dp)
  }

  lemma CountsAfterUnlink(t: Tree, dp: nat, k: nat, d: nat, j: nat, i: nat)
    requires CanUnlink(t, dp, k) && i != 0
    ensures var e := Unlinked(t, dp, k);
      && (Counts(t, d, j, i) <==> Counts(e, d, j, i) || Lost(t, dp, k, d, j, i))
      && !(Counts(e, d, j, i) && Lost(t, dp, k, d, j, i))
  {
    var e := Unlinked(t, dp, k);
    var ip := t.dirs[dp][k].inum;
    UnlinkedDirIsAlone(t, dp, k);
    UnlinkedStaysLinked(t, dp, k);
    assert DirOk(t, ip) && InodeOk(t, ip);
  }

  lemma UnlinkCounts(t: Tree, dp: nat, k: nat, i: nat)
    requires CanUnlink(t, dp, k)
    ensures CountOk(Unlinked(t, dp, k), i)
  {
    var e := Unlinked(t, dp, k);
    var ip := t.dirs[dp][k].inum;
    UnlinkedDirIsAlone(t, dp, k);
    if 0 < i < |t.typ| {
      LinksAreCounted(t, i);
      var less := if i == ip then {(dp, k)} else if t.typ[ip] == T_DIR && i == dp then {(ip, 1)} else {};
      assert e.nlink[i] == t.nlink[i] - |less|;
      hide Counts, CanUnlink, TreeOk, Named;
      forall d: nat, j: nat
        ensures Counts(t, d, j, i) <==> Counts(e, d, j, i) || (d, j) in less
        ensures (d, j) in less ==> !Counts(e, d, j, i)
      {
        CountsAfterUnlink(t, dp, k, d, j, i);
      }
      assert forall x :: x in less ==> !Counts(e, x.0, x.1, i);
      NamedGrows(e, t, i, less);
    }
  }

  lemma UnlinkKeepsDirs(t: Tree, dp: nat, k: nat, d: nat)
    requires CanUnlink(t, dp, k)
    ensures DirOk(Unlinked(t, dp, k), d)
  {
    UnlinkedDirIsAlone(t, dp, k);
    UnlinkedStaysLinked(t, dp, k);
    assert DirOk(t, d);
    var es := t.dirs[dp];
    var now := es[k := NO_ENTRY];
    forall i: nat, j: nat
      ensures DirOk(t, dp) ==> Differ(now, i, j)
    {
      assert DirOk(t, dp) ==> Differ(es, i, j);
    }
  }

  lemma UnlinkKeepsChildren(t: Tree, dp: nat, k: nat, d: nat, j: nat)
    requires CanUnlink(t, dp, k)
    ensures ChildOk(Unlinked(t, dp, k), d, j)
  {
    var e := Unlinked(t, dp, k);
    UnlinkedDirIsAlone(t, dp, k);
    if IsChild(e, d, j) {
      assert t.dirs[d][j] == e.dirs[d][j] && IsChild(t, d, j);
      assert ChildOk(t, d, j);
    }
  }

  lemma UnlinkKeepsParents(t: Tree, dp: nat, k: nat, s: nat)
    requires CanUnlink(t, dp, k)
    ensures ParentOk(Unlinked(t, dp, k), s)
  {
    var e := Unlinked(t, dp, k);
    var ip := t.dirs[dp][k].inum;
    UnlinkedDirIsAlone(t, dp, k);
    UnlinkedStaysLinked(t, dp, k);
    if s < |t.typ| && s != ROOT && t.typ[s] == T_DIR && e.nlink[s] > 0 {
      assert s != ip && t.nlink[s] > 0;
      assert ParentOk(t, s) && s != 0 by { assert RootOk(t); }
      var p := t.dirs[s][1].inum;
      var x: nat :| IsNamedBy(t, s, p, x);
      assert p != ip;
      assert IsNamedBy(e, s, p, x) && e.dirs[s][1] == t.dirs[s][1];
    }
  }

  /** `unlink` keeps the tree in order and every count right; a directory that goes had exactly one link. */
  lemma UnlinkKeepsTree(t: Tree, dp: nat, k: nat)
    requires CanUnlink(t, dp, k)
    ensures TreeOk(Unlinked(t, dp, k))
  {
    var e := Unlinked(t, dp, k);
    UnlinkedDirIsAlone(t, dp, k);
    UnlinkedStaysLinked(t, dp, k);
    UnlinkKeepsInodes(t, dp, k);
    hide CanUnlink, InodeOk, DirOk, ChildOk, ParentOk, CountOk;
    forall i: nat
      ensures CountOk(e, i) && DirOk(e, i) && ParentOk(e, i)
    {
      UnlinkCounts(t, dp, k, i);
      UnlinkKeepsDirs(t, dp, k, i);
      UnlinkKeepsParents(t, dp, k, i);
    }
    forall d: nat, j: nat
      ensures ChildOk(e, d, j)
    {
      UnlinkKeepsChildren(t, dp, k, d, j);
    }
  }

  lemma UnlinkKeepsInodes(t: Tree, dp: nat, k: nat)
    requires CanUnlink(t, dp, k)
    ensures RootOk(Unlinked(t, dp, k)) && forall i: nat :: InodeOk(Unlinked(t, dp, k), i)
  {
    var e := Unlinked(t, dp, k);
    UnlinkedDirIsAlone(t, dp, k);
    UnlinkedStaysLinked(t, dp, k);
    NamedIsLinked(t, dp, k);
    assert RootOk(t);
    forall i: nat
      ensures InodeOk(e, i)
    {
      assert InodeOk(t, i);
    }
  }

  // ----- freeing

  /** Freeing an inode without links keeps the tree in order: no entry of a linked directory named it. */
  lemma FreeKeepsTree(t: Tree, i: nat)
    requires TreeOk(t) && 0 < i < |t.typ| && t.nlink[i] == 0
    ensures TreeOk(Freed(t, i)) && Named(t, i) == {}
  {
    var e := Freed(t, i);
    LinksAreCounted(t, i);
    assert RootOk(t);
    forall c: nat
      ensures InodeOk(e, c) && CountOk(e, c) && DirOk(e, c) && ParentOk(e, c)
    {
      assert InodeOk(t, c) && DirOk(t, c) && CountOk(t, c);
      assert Named(e, c) == Named(t, c);
      FreeKeepsParents(t, i, c);
    }
    forall d: nat, j: nat
      ensures ChildOk(e, d, j)
    {
      assert ChildOk(t, d, j);
      if IsChild(e, d, j) {
        NamedIsLinked(t, d, j);
      }
    }
  }

  lemma FreeKeepsParents(t: Tree, i: nat, s: nat)
    requires TreeOk(t) && 0 < i < |t.typ| && t.nlink[i] == 0
    ensures ParentOk(Freed(t, i), s)
  {
    var e := Freed(t, i);
    assert ParentOk(t, s);
    if s < |t.typ| && s != ROOT && e.typ[s] == T_DIR && t.nlink[s] > 0 {
      var p := t.dirs[s][1].inum;
      var x: nat :| IsNamedBy(t, s, p, x);
      assert IsNamedBy(e, s, p, x);
    }
  }

  /** The name is of a directory that still has entries. */
  ghost predicate NotEmpty(t: Tree, dp: nat, name: seq<Byte>, k: nat) {
    && Shape(t) && dp < |t.dirs| && FoundAt(t.dirs[dp], name, k)
    && var ip := t.dirs[dp][k].inum;
    ip < |t.typ| && t.typ[ip] == T_DIR && exists j: nat :: 2 <= j < |t.dirs[ip]| && t.dirs[ip][j].inum != 0
  }

  /** A name other than the dots is found in linked directories only, and names an inode with links. */
  lemma FoundInLinked(t: Tree, dp: nat, name: seq<Byte>, k: nat)
    requires TreeOk(t) && dp < |t.typ| && t.typ[dp] == T_DIR && FoundAt(t.dirs[dp], name, k)
    requires name != DOT && name != DOTDOT
    ensures t.nlink[dp] > 0 && 0 < t.dirs[dp][k].inum < |t.typ| && t.nlink[t.dirs[dp][k].inum] > 0
  {
    assert DirOk(t, dp);
    LinksAreCounted(t, dp);
    OnlyFirstIsDot(t, dp, k);
    NamedIsLinked(t, dp, k);
  }

  /** What a name found stands for can be unlinked, or is a directory that is not empty. */
  lemma FoundCanGo(t: Tree, dp: nat, name: seq<Byte>, k: nat)
    requires TreeOk(t) && dp < |t.typ| && t.typ[dp] == T_DIR && FoundAt(t.dirs[dp], name, k)
    requires name != DOT && name != DOTDOT
    ensures var ip := t.dirs[dp][k].inum;
            && 0 < ip < |t.typ| && t.nlink[ip] > 0 && t.typ[ip] != 0
            && if t.typ[ip] == T_DIR && exists j: nat :: 2 <= j < |t.dirs[ip]| && t.dirs[ip][j].inum != 0
               then NotEmpty(t, dp, name, k) else CanUnlink(t, dp, k)
  {
    FoundInLinked(t, dp, name, k);
    NamedIsLinked(t, dp, k);
  }

  /** The names of the dots as C strings. */
  lemma CutDots()
    ensures Readable(DOT + [0], DIRSIZ) && Readable(DOTDOT + [0], DIRSIZ)
    ensures Cut(DOT + [0], DIRSIZ) == DOT && Cut(DOTDOT + [0], DIRSIZ) == DOTDOT
  {
    var z: seq<Byte> := [0];
    assert (DOT + z)[1..] == z && Cut(z, DIRSIZ - 1) == [];
    var m: nat := DIRSIZ - 1;
    assert (DOTDOT + z)[1..] == DOT + z && (DOT + z)[1..] == z && Cut(z, m - 1) == [];
    assert Cut(DOT + z, m) == DOT;
    assert (DOT + z)[1] == 0 && (DOTDOT + z)[2] == 0;
  }

  /** A name found for an inode that is free is ".." in an unlinked directory. */
  lemma FreeNameIsDotDot(t: Tree, dp: nat, name: seq<Byte>, k: nat)
    requires TreeOk(t) && dp < |t.typ| && t.typ[dp] == T_DIR && FoundAt(t.dirs[dp], name, k)
    requires t.dirs[dp][k].inum < |t.typ| && t.typ[t.dirs[dp][k].inum] == 0
    ensures t.nlink[dp] == 0 && name == DOTDOT && k == 1
  {
    assert DirOk(t, dp);
    LinksAreCounted(t, dp);
    if t.nlink[dp] > 0 {
      NamedIsLinked(t, dp, k);
    }
  }

  // ----- free records at the end of a directory

  function Padded(t: Tree, d: nat, n: nat): Tree
    requires Shape(t) && d < |t.typ|
  {
    t.(dirs := t.dirs[d := t.dirs[d] + seq(n, _ => NO_ENTRY)])
  }

  /** They change nothing. */
  lemma PaddingKeepsTree(t: Tree, d: nat, n: nat)
    requires TreeOk(t) && d < |t.typ| && t.typ[d] == T_DIR
    ensures TreeOk(Padded(t, d, n))
  {
    var e := Padded(t, d, n);
    assert RootOk(t) && DirOk(t, d);
    forall i: nat
      ensures InodeOk(e, i) && CountOk(e, i) && DirOk(e, i) && ParentOk(e, i)
    {
      assert InodeOk(t, i) && CountOk(t, i);
      PaddingKeepsCount(t, d, n, i);
      PaddingKeepsDir(t, d, n, i);
      PaddingKeepsParent(t, d, n, i);
    }
    forall c: nat, k: nat
      ensures ChildOk(e, c, k)
    {
      assert ChildOk(t, c, k);
      if IsChild(e, c, k) {
        assert IsChild(t, c, k) && e.dirs[c][k] == t.dirs[c][k];
      }
    }
  }

  lemma PaddingKeepsCount(t: Tree, d: nat, n: nat, i: nat)
    requires TreeOk(t) && d < |t.typ| && CountOk(t, i)
    ensures CountOk(Padded(t, d, n), i)
  {
    var e := Padded(t, d, n);
    if 0 < i < |t.typ| {
      forall c: nat, k: nat
        ensures Counts(e, c, k, i) <==> Counts(t, c, k, i)
      {
      }
      NamedGrows(t, e, i, {});
    }
  }

  lemma PaddingKeepsDir(t: Tree, d: nat, n: nat, i: nat)
    requires TreeOk(t) && d < |t.typ| && t.typ[d] == T_DIR
    ensures DirOk(Padded(t, d, n), i)
  {
    assert DirOk(t, i);
    if i == d {
      var es, now := t.dirs[d], Padded(t, d, n).dirs[d];
      forall j: nat, k: nat
        ensures Differ(now, j, k)
      {
        assert Differ(es, j, k);
      }
    }
  }

  lemma PaddingKeepsParent(t: Tree, d: nat, n: nat, i: nat)
    requires TreeOk(t) && d < |t.typ| && t.typ[d] == T_DIR
    ensures ParentOk(Padded(t, d, n), i)
  {
    var e := Padded(t, d, n);
    assert ParentOk(t, i) && DirOk(t, i);
    if i < |t.typ| && i != ROOT && t.typ[i] == T_DIR && t.nlink[i] > 0 {
      var p := t.dirs[i][1].inum;
      var x: nat :| IsNamedBy(t, i, p, x);
      assert IsNamedBy(e, i, p, x) && e.dirs[i][1] == t.dirs[i][1];
    }
  }

  // ----- a directory that was unlinked while a process is in it

  /** A file system of `n` inodes with nothing but its root. */
  function EmptyRoot(n: nat): (t: Tree)
    requires n > ROOT
    ensures |t.typ| == |t.nlink| == |t.dirs| == n
  {
    Tree(seq(n, i => if i == ROOT then T_DIR else 0), seq(n, i => if i == ROOT then 1 else 0),
         seq(n, i => if i == ROOT then [Dirent(ROOT, DOT), Dirent(ROOT, DOTDOT)] else []))
  }

  lemma EmptyRootIsOk(n: nat)
    requires n > ROOT
    ensures TreeOk(EmptyRoot(n))
  {
    var t := EmptyRoot(n);
    assert |DOT| != |DOTDOT|;
    assert NoDuplicates(t.dirs[ROOT]);
    forall i: nat
      ensures CountOk(t, i)
    {
      if 0 < i < n {
        var places: set<(nat, nat)> := if i == ROOT then {(ROOT, 1)} else {};
        forall d: nat, k: nat
          ensures Counts(t, d, k, i) <==> (d, k) in places
        {
        }
        assert Named(t, i) == places;
      }
    }
  }

  const DIR_NAME: seq<Byte> := [100]
  const FILE_NAME: seq<Byte> := [102]
  const NEW_NAME: seq<Byte> := [97]

  /** A directory and a file are created in the root. */
  function DirAndFile(): (t: Tree)
    ensures |t.typ| == |t.nlink| == |t.dirs| == 5
  {
    Created(Created(EmptyRoot(5), ROOT, DIR_NAME, 2, T_DIR, 2), ROOT, FILE_NAME, 3, 2, 3)
  }

  lemma DirAndFileIsOk()
    ensures TreeOk(DirAndFile())
    ensures var t := DirAndFile();
      && t.dirs[ROOT] == [Dirent(ROOT, DOT), Dirent(ROOT, DOTDOT), Dirent(2, DIR_NAME), Dirent(3, FILE_NAME)]
      && t.dirs[2] == [Dirent(2, DOT), Dirent(ROOT, DOTDOT)] && t.dirs[4] == []
      && t.typ == [0, T_DIR, T_DIR, 2, 0] && t.nlink == [0, 2, 1, 1, 0]
  {
    var t := EmptyRoot(5);
    var u := Created(t, ROOT, DIR_NAME, 2, T_DIR, 2);
    EmptyRootIsOk(5);
    hide TreeOk;
    assert |DOTDOT| == 2 && DOT[0] == 46;
    assert t.dirs[ROOT] == [Dirent(ROOT, DOT), Dirent(ROOT, DOTDOT)];
    assert Absent(t.dirs[ROOT], DIR_NAME);
    CreateKeepsTree(t, ROOT, DIR_NAME, 2, T_DIR, 2);
    assert u.dirs[ROOT] == [Dirent(ROOT, DOT), Dirent(ROOT, DOTDOT), Dirent(2, DIR_NAME)];
    assert FILE_NAME[0] != DIR_NAME[0];
    assert Absent(u.dirs[ROOT], FILE_NAME);
    CreateKeepsTree(u, ROOT, FILE_NAME, 3, 2, 3);
  }

  /** After the directory is unlinked, a process still in it can create a file there and link one, and both calls leave
      wrong link counts. */
  lemma UnlinkedDirectoryMiscounts()
    ensures |DirAndFile().dirs[ROOT]| == 4 && DirAndFile().dirs[ROOT][2].inum == 2
    ensures var t := Unlinked(DirAndFile(), ROOT, 2);
      && TreeOk(t) && t.typ[2] == T_DIR && t.nlink[2] == 0
      && CanCreate(t, 2, NEW_NAME, 4, 2, 2) && !Counted(Created(t, 2, NEW_NAME, 4, 2, 2))
      && CanLink(t, 3, 2, NEW_NAME, 2) && !Counted(Linked(t, 3, 2, NEW_NAME, 2))
  {
    DirAndFileIsOk();
    hide TreeOk, DirAndFile;
    var t := DirAndFile();
    assert |DOTDOT| == 2 && DOT[0] == 46;
    UnlinkKeepsTree(t, ROOT, 2);
    var u := Unlinked(t, ROOT, 2);
    assert u.dirs[2] == [Dirent(2, DOT), Dirent(ROOT, DOTDOT)];
    assert Absent(u.dirs[2], NEW_NAME);
    CreateIsRightExactly(u, 2, NEW_NAME, 4, 2, 2);
    LinkIsRightExactly(u, 3, 2, NEW_NAME, 2);
  }

  /** A directory "d" in the root, with a directory "f" in it. */
  function DirInDir(): (t: Tree)
    ensures |t.typ| == |t.nlink| == |t.dirs| == 5
  {
    Created(Created(EmptyRoot(5), ROOT, DIR_NAME, 2, T_DIR, 2), 2, FILE_NAME, 3, T_DIR, 2)
  }

  lemma DirInDirIsOk()
    ensures TreeOk(DirInDir())
    ensures var t := DirInDir();
      && t.dirs[ROOT] == [Dirent(ROOT, DOT), Dirent(ROOT, DOTDOT), Dirent(2, DIR_NAME)]
      && t.dirs[2] == [Dirent(2, DOT), Dirent(ROOT, DOTDOT), Dirent(3, FILE_NAME)]
      && t.dirs[3] == [Dirent(3, DOT), Dirent(2, DOTDOT)]
      && t.typ == [0, T_DIR, T_DIR, T_DIR, 0] && t.nlink == [0, 2, 2, 1, 0]
  {
    var t := EmptyRoot(5);
    var u := Created(t, ROOT, DIR_NAME, 2, T_DIR, 2);
    EmptyRootIsOk(5);
    hide TreeOk;
    assert |DOTDOT| == 2 && DOT[0] == 46;
    assert t.dirs[ROOT] == [Dirent(ROOT, DOT), Dirent(ROOT, DOTDOT)];
    assert Absent(t.dirs[ROOT], DIR_NAME);
    CreateKeepsTree(t, ROOT, DIR_NAME, 2, T_DIR, 2);
    assert u.dirs[2] == [Dirent(2, DOT), Dirent(ROOT, DOTDOT)];
    assert Absent(u.dirs[2], FILE_NAME);
    CreateKeepsTree(u, 2, FILE_NAME, 3, T_DIR, 2);
  }

  /** After both directories are unlinked, while a process is in the inner one, and the outer one is freed, ".." in the
      inner one names a free inode. */
  lemma ParentCanBeFree() returns (t: Tree)
    ensures TreeOk(t) && |t.typ| == 5 && t.typ[3] == T_DIR && FoundAt(t.dirs[3], DOTDOT, 1)
    ensures t.dirs[3][1].inum == 2 && t.typ[2] == 0
  {
    DirInDirIsOk();
    hide TreeOk, DirInDir;
    var a := DirInDir();
    assert |DOTDOT| == 2 && DOT[0] == 46;
    UnlinkKeepsTree(a, 2, 2);
    var b := Unlinked(a, 2, 2);
    assert b.dirs[2] == [Dirent(2, DOT), Dirent(ROOT, DOTDOT), NO_ENTRY];
    UnlinkKeepsTree(b, ROOT, 2);
    var c := Unlinked(b, ROOT, 2);
    assert c.nlink[2] == 0;
    FreeKeepsTree(c, 2);
    t := Freed(c, 2);
    assert t.dirs[3] == [Dirent(3, DOT), Dirent(2, DOTDOT)];
  }
}
