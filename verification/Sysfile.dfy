/** `create`, `link` and `unlink`, and the part of `iput` that frees: each system call is one step on inodes whose
directories are entry lists. Module DiskCalls has the same calls on the disk.
 */
module Sysfile {
  import opened Blocks
  import opened Dirents
  import opened Links

  const T_FILE := 2

  /** How `dirlink` ends, at record `k`: the name entered there, or found there. */
  datatype Dirlinked = Entered(k: nat) | Taken(k: nat) | Stuck(k: nat)

  class Inodes {
    var typ: seq<int>
    var nlink: seq<int>
    var dirs: seq<seq<Dirent>>

    function Now(): Tree
      reads this
    {
      Tree(typ, nlink, dirs)
    }

    /** `dirlookup` on the list. */
    method Lookup(dp: nat, name: seq<Byte>) returns (r: Option<nat>)
      requires dp < |dirs|
      ensures r == None <==> Absent(dirs[dp], name)
      ensures r.Some? ==> FoundAt(dirs[dp], name, r.value)
    {
      for k := 0 to |dirs[dp]|
        invariant forall j: nat :: j < k ==> !Names(dirs[dp][j], name)
      {
        if dirs[dp][k].inum != 0 && dirs[dp][k].name == name {
          return Some(k);
        }
      }
      return None;
    }

    /** `dirlink` on the list. When the name is there and names the directory itself, `iput` waits for the lock the
    caller holds. */
    method Enter(dp: nat, name: seq<Byte>, inum: nat) returns (r: Dirlinked)
      requires dp < |dirs|
      modifies `dirs
      ensures r.Entered? <==> Absent(old(dirs[dp]), name)
      ensures !r.Entered? ==>
                dirs == old(dirs) && FoundAt(dirs[dp], name, r.k) && (r.Stuck? <==> dirs[dp][r.k].inum == dp)
      ensures r.Entered? ==>
                && FreeAt(old(dirs[dp]), r.k) && |dirs| == |old(dirs)|
                && dirs == old(dirs)[dp := Put(old(dirs[dp]), r.k, Dirent(inum, name))]
    {
      var found := Lookup(dp, name);
      if found.Some? {
        return if dirs[dp][found.value].inum == dp then Stuck(found.value) else Taken(found.value);
      }
      var k := 0;
      while k < |dirs[dp]| && dirs[dp][k].inum != 0
        invariant 0 <= k <= |dirs[dp]| && forall j: nat :: j < k ==> dirs[dp][j].inum != 0
      {
        k := k + 1;
      }
      dirs := dirs[dp := Put(dirs[dp], k, Dirent(inum, name))];
      return Entered(k);
    }

    /** The entries "." and ".." of a new directory. */
    method EnterDots(ip: nat, dp: nat) returns (ok: bool)
      requires 0 < ip < |dirs| && dirs[ip] == []
      modifies `dirs
      ensures ok && dirs == old(dirs)[ip := [Dirent(ip, DOT), Dirent(dp, DOTDOT)]]
    {
      var a := Enter(ip, DOT, ip);
      assert a == Entered(0) && dirs[ip] == [Dirent(ip, DOT)];
      assert |DOT| != |DOTDOT|;
      assert !Names(dirs[ip][0], DOTDOT);
      var b := Enter(ip, DOTDOT, dp);
      assert b == Entered(1) && dirs[ip] == [Dirent(ip, DOT), Dirent(dp, DOTDOT)];
      assert dirs == old(dirs)[ip := dirs[ip]];
      ok := a.Entered? && b.Entered?;
    }

    /** `create` finds a file of that name, or makes a new inode and enters it; it refuses other names that are there.
    It panics for want of inodes, and on ".." of an unlinked directory whose parent is free. The counts are right
    after it exactly when the directory was linked. */
    method Create(dp: nat, name: seq<Byte>, ty: int) returns (r: Outcome, ghost k: nat)
      requires TreeOk(Now()) && dp < |typ| && typ[dp] == T_DIR && ty != 0
      modifies this
      ensures r == Panicked <==>
                if Absent(old(dirs[dp]), name) then forall i: nat :: 0 < i < |old(typ)| ==> old(typ)[i] != 0
                else NamesFree(old(Now()), dp, name)
      ensures r.Made? ==>
                && CanCreate(old(Now()), dp, name, r.ip, ty, k) && Now() == Created(old(Now()), dp, name, r.ip, ty, k)
                && (TreeOk(Now()) <==> old(nlink[dp]) != 0)
      ensures !r.Made? ==> Now() == old(Now())
      ensures r.Reused? || r == Refused ==>
                && FoundAt(dirs[dp], name, k) && dirs[dp][k].inum < |typ|
                && (r.Reused? <==> ty == 2 == typ[dirs[dp][k].inum])
      ensures r.Reused? ==> r.ip == dirs[dp][k].inum
    {
      ghost var t := Now();
      k := 0;
      var found := Lookup(dp, name);
      if found.Some? {
        k := found.value;
        OnlyFirstIsDot(t, dp, k);
        FoundOnce(dirs[dp], name, k);
        var ip := dirs[dp][found.value].inum;
        if typ[ip] == 0 {
          return Panicked, k;
        }
        return if ty == T_FILE && typ[ip] == T_FILE then Reused(ip) else Refused, k;
      }
      var ip := Ialloc(ty);
      if ip == None {
        return Panicked, k;
      }
      LinksAreCounted(t, ip.value);
      nlink := nlink[ip.value := 1];
      if ty == T_DIR {
        nlink := nlink[dp := nlink[dp] + 1];
        var dots := EnterDots(ip.value, dp);
        assert dots;
      }
      var at := Enter(dp, name, ip.value);
      k := at.k;
      CreateIsRightExactly(t, dp, name, ip.value, ty, k);
      r := Made(ip.value);
    }

    /** `ialloc` takes the first free inode. */
    method Ialloc(ty: int) returns (r: Option<nat>)
      requires |typ| > 0 && ty != 0
      modifies `typ
      ensures r == None <==> forall i: nat :: 0 < i < |old(typ)| ==> old(typ)[i] != 0
      ensures r == None ==> typ == old(typ)
      ensures r.Some? ==>
                0 < r.value < |old(typ)| && old(typ)[r.value] == 0 && typ == old(typ)[r.value := ty]
                && forall i: nat :: 0 < i < r.value ==> old(typ)[i] != 0
    {
      for i := 1 to |typ|
        invariant typ == old(typ) && forall j: nat :: 0 < j < i ==> typ[j] != 0
      {
        if typ[i] == 0 {
          typ := typ[i := ty];
          return Some(i);
        }
      }
      return None;
    }

    /** `sys_link` counts the link first and takes it back when the name is there. `None` when it never returns: the
    name is found to be of the directory itself, and `dirlink` waits for a lock its caller holds. */
    method Link(ip: nat, dp: nat, name: seq<Byte>) returns (r: Option<int>, ghost k: nat)
      requires TreeOk(Now()) && ip < |typ| && dp < |typ| && typ[ip] != 0 && typ[dp] == T_DIR
      modifies this
      ensures r == None || r == Some(0) || r == Some(-1)
      ensures r == Some(0) ==>
                && CanLink(old(Now()), ip, dp, name, k) && Now() == Linked(old(Now()), ip, dp, name, k)
                && (TreeOk(Now()) <==> old(nlink[dp]) != 0)
      ensures r == Some(-1) ==>
                && Now() == old(Now())
                && (typ[ip] == T_DIR || (FoundAt(dirs[dp], name, k) && dirs[dp][k].inum != dp))
      ensures r == None ==>
                && old(typ[ip]) != T_DIR && FoundAt(old(dirs[dp]), name, k) && old(dirs[dp])[k].inum == dp
                && Now() == old(Now()).(nlink := old(nlink)[ip := old(nlink[ip]) + 1]) && !TreeOk(Now())
    {
      ghost var t := Now();
      if typ[ip] == T_DIR {
        return Some(-1), 0;
      }
      nlink := nlink[ip := nlink[ip] + 1];
      var at := Enter(dp, name, ip);
      k := at.k;
      match at
      case Stuck(_) =>
        RaisedMiscounts(t, ip);
        return None, k;
      case Taken(_) =>
        nlink := nlink[ip := nlink[ip] - 1];
        return Some(-1), k;
      case Entered(_) =>
        LinkIsRightExactly(t, ip, dp, name, k);
        return Some(0), k;
    }

    /** `isdirempty` */
    method Isdirempty(ip: nat) returns (r: bool)
      requires ip < |dirs|
      ensures r <==> forall j: nat :: 2 <= j < |dirs[ip]| ==> dirs[ip][j].inum == 0
    {
      var k := 2;
      while k < |dirs[ip]|
        invariant 2 <= k && forall j: nat :: 2 <= j < k && j < |dirs[ip]| ==> dirs[ip][j].inum == 0
      {
        if dirs[ip][k].inum != 0 {
          return false;
        }
        k := k + 1;
      }
      return true;
    }

    /** `sys_unlink`; its panic for an inode without links is out of reach, and the counts stay right. */
    method Unlink(dp: nat, name: seq<Byte>) returns (r: int, ghost k: nat)
      requires TreeOk(Now()) && dp < |typ| && typ[dp] == T_DIR
      modifies this
      ensures r == 0 || r == -1
      ensures r == 0 ==>
                && FoundAt(old(dirs[dp]), name, k) && CanUnlink(old(Now()), dp, k)
                && Now() == Unlinked(old(Now()), dp, k) && TreeOk(Now())
      ensures r == -1 ==> Now() == old(Now())
      ensures r == -1 ==> name == DOT || name == DOTDOT || Absent(dirs[dp], name) || NotEmpty(Now(), dp, name, k)
    {
      ghost var t := Now();
      if name == DOT || name == DOTDOT {
        return -1, 0;
      }
      var found := Lookup(dp, name);
      if found == None {
        return -1, 0;
      }
      k := found.value;
      FoundInLinked(t, dp, name, k);
      var ip := dirs[dp][found.value].inum;
      assert nlink[ip] >= 1;
      if typ[ip] == T_DIR {
        var empty := Isdirempty(ip);
        if !empty {
          return -1, k;
        }
      }
      UnlinkedDirIsAlone(t, dp, k);
      dirs := dirs[dp := dirs[dp][found.value := NO_ENTRY]];
      if typ[ip] == T_DIR {
        nlink := nlink[dp := nlink[dp] - 1];
      }
      nlink := nlink[ip := nlink[ip] - 1];
      UnlinkKeepsTree(t, dp, k);
      return 0, k;
    }

    /** The freeing part of `iput`: only an inode no linked directory names is freed. */
    method Iput(i: nat, last: bool) returns (freed: bool)
      requires TreeOk(Now()) && 0 < i < |typ|
      modifies `typ, `dirs
      ensures TreeOk(Now()) && (freed <==> old(nlink[i]) == 0 && last)
      ensures freed ==> Now() == Freed(old(Now()), i) && Named(old(Now()), i) == {}
      ensures !freed ==> Now() == old(Now())
    {
      if nlink[i] == 0 && last {
        FreeKeepsTree(Now(), i);
        dirs := dirs[i := []];
        typ := typ[i := 0];
        return true;
      }
      return false;
    }
  }

  /** The name is there, of an inode that is free. */
  ghost predicate NamesFree(t: Tree, dp: nat, name: seq<Byte>)
    requires dp < |t.dirs|
  {
    exists k: nat :: FoundAt(t.dirs[dp], name, k) && t.dirs[dp][k].inum < |t.typ| && t.typ[t.dirs[dp][k].inum] == 0
  }

  /** One link too many on an inode that is no directory. */
  lemma RaisedMiscounts(t: Tree, ip: nat)
    requires TreeOk(t) && ip < |t.typ| && t.typ[ip] != 0 && t.typ[ip] != T_DIR
    ensures !TreeOk(t.(nlink := t.nlink[ip := t.nlink[ip] + 1]))
  {
    var e := t.(nlink := t.nlink[ip := t.nlink[ip] + 1]);
    LinksAreCounted(t, ip);
    forall d: nat, j: nat
      ensures Counts(e, d, j, ip) <==> Counts(t, d, j, ip)
    {
    }
    NamedGrows(t, e, ip, {});
    assert !CountOk(e, ip);
  }

  /** The names of a directory that name itself: "." always, ".." in the root. */
  lemma OwnNames(t: Tree, dp: nat)
    requires TreeOk(t) && dp < |t.typ| && t.typ[dp] == T_DIR
    ensures FoundAt(t.dirs[dp], DOT, 0) && t.dirs[dp][0].inum == dp
    ensures FoundAt(t.dirs[dp], DOTDOT, 1) && (dp == ROOT ==> t.dirs[dp][1].inum == dp)
  {
    assert DirOk(t, dp) && RootOk(t);
    assert |DOT| != |DOTDOT|;
  }
}
