/** The table of open files: reference counts of `filealloc`, `filedup` and `fileclose`.

The ghost multiset counts the descriptors that refer to each entry.
 */
module FileTable {
  import opened Blocks

  /** What an entry is open on; `Closed` is FD_NONE. */
  datatype Target = Closed | OnPipe(pipe: nat, writable: bool) | OnInode(ip: nat)

  datatype File = File(ref: nat, target: Target)

  class Files {
    var file: seq<File>
    ghost var held: multiset<nat>

    /** Every entry counts the descriptors that refer to it, and an entry without any is on nothing. */
    ghost predicate Valid()
      reads this
    {
      && (forall f: nat :: f < |file| ==> file[f].ref == held[f])
      && (forall f: nat :: f in held ==> f < |file|)
      && (forall f: nat :: f < |file| && file[f].ref == 0 ==> file[f].target == Closed)
    }

    /** `filealloc` takes the first entry nobody refers to; `None` exactly when there is none. */
    method Filealloc() returns (r: Option<nat>)
      requires Valid()
      modifies this
      ensures Valid() && (r == None <==> forall f: nat :: f < |old(file)| ==> f in old(held))
      ensures r == None ==> unchanged(this)
      ensures r.Some? ==>
                && r.value < |old(file)| && r.value !in old(held) && held == old(held) + multiset{r.value}
                && file == old(file)[r.value := File(1, Closed)]
    {
      for f := 0 to |file|
        invariant unchanged(this) && forall g: nat :: g < f ==> g in held
      {
        if file[f].ref == 0 {
          file := file[f := file[f].(ref := 1)];
          held := held + multiset{f};
          return Some(f);
        }
      }
      return None;
    }

    /** What `sys_open` and `pipealloc` do with an entry they have just taken. */
    method Open(f: nat, target: Target)
      requires Valid() && f in held
      modifies `file
      ensures Valid() && f < |old(file)| && file == old(file)[f := old(file)[f].(target := target)]
    {
      file := file[f := file[f].(target := target)];
    }

    /** `filedup`; false is its panic, for an entry nobody refers to. */
    method Filedup(f: nat) returns (ok: bool)
      requires Valid() && f < |file|
      modifies this
      ensures Valid() && (ok <==> f in old(held))
      ensures held == (if ok then old(held) + multiset{f} else old(held))
      ensures |file| == |old(file)| && forall g: nat :: g < |file| ==> file[g].target == old(file)[g].target
    {
      if file[f].ref < 1 {
        return false;
      }
      file := file[f := file[f].(ref := file[f].ref + 1)];
      held := held + multiset{f};
      return true;
    }

    /** `fileclose` gives up one reference; exactly when it was the last is there something left to close, the pipe
    end or the inode the entry was on, and the entry is free again. False is its panic. */
    method Fileclose(f: nat) returns (ok: bool, close: Option<Target>)
      requires Valid() && f < |file|
      modifies this
      ensures Valid() && (ok <==> f in old(held)) && (!ok ==> unchanged(this) && close == None)
      ensures ok ==> held == old(held) - multiset{f}
      ensures ok ==> close == if old(held)[f] == 1 then Some(old(file)[f].target) else None
      ensures ok ==> |file| == |old(file)| && forall g: nat :: g < |file| && g != f ==> file[g] == old(file)[g]
      ensures ok && f in held ==> file[f].target == old(file)[f].target
    {
      if file[f].ref < 1 {
        return false, None;
      }
      file := file[f := file[f].(ref := file[f].ref - 1)];
      held := held - multiset{f};
      if file[f].ref > 0 {
        return true, None;
      }
      var ff := file[f];
      file := file[f := File(0, Closed)];
      return true, Some(ff.target);
    }
  }
}
