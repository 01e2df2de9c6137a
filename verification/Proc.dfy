/** The process table: the life of a process from `allocproc` to `wait`, and the priority scheduler.

`ptable.lock` is held from the first line of each method to the last, across the switch between a process and the
scheduler of its CPU, so that the states other CPUs can see are the states between calls. A process is its slot in
`ptable.proc`. Interleavings of any number of CPUs are sequences of calls.
 */
module Proc {

  const NPROC := 64
  const NCPU := 8
  const TOP_PRIORITY_NUMBER := 10

  datatype Option<+T> = None | Some(value: T)

  datatype ProcState = UNUSED | EMBRYO | SLEEPING | RUNNABLE | RUNNING | ZOMBIE

  /** A sleep channel is an address: that of a process slot, used only by `wait`, or some other one. */
  datatype Chan = NoChan | OfProc(slot: nat) | Other(addr: nat)

  datatype Proc = Proc(state: ProcState, pid: nat, parent: Option<nat>, chan: Chan, killed: bool, priority: int)

  const FREE_SLOT := Proc(UNUSED, 0, None, NoChan, false, 0)

  type Table = t: seq<Proc> | |t| == NPROC witness seq(NPROC, _ => FREE_SLOT)

  // ---------- what the loops over the table compute ----------

  /** The table after `wakeup1(chan)`. */
  function Woken(t: Table, chan: Chan): (r: Table)
    ensures forall i :: 0 <= i < NPROC ==> r[i] == WokenProc(t[i], chan)
  {
    seq(NPROC, i requires 0 <= i < NPROC => WokenProc(t[i], chan))
  }

  function WokenProc(p: Proc, chan: Chan): Proc {
    if p.state == SLEEPING && p.chan == chan then p.(state := RUNNABLE) else p
  }

  /** The table after wakeups of some channels, one after the other. */
  function AfterWakeups(t: Table, chans: seq<Chan>): Table
    decreases |chans|
  {
    if chans == [] then t else AfterWakeups(Woken(t, chans[0]), chans[1..])
  }

  /** However many channels are woken, the sleepers on them are runnable afterwards, and nothing else changes. */
  lemma {:induction false} SleepersAreWoken(t: Table, chans: seq<Chan>, i: nat)
    requires i < NPROC
    ensures AfterWakeups(t, chans)[i]
         == if t[i].state == SLEEPING && t[i].chan in chans then t[i].(state := RUNNABLE) else t[i]
    decreases |chans|
  {
    if chans != [] {
      SleepersAreWoken(Woken(t, chans[0]), chans[1..], i);
      assert Woken(t, chans[0])[i] == WokenProc(t[i], chans[0]);
      assert t[i].chan in chans <==> t[i].chan == chans[0] || t[i].chan in chans[1..];
    }
  }

  /** Process `p` is at least as good a choice for the scheduler as `q`: lower priority number, then lower slot. */
  predicate Precedes(t: Table, p: nat, q: nat)
    requires p < NPROC && q < NPROC
  {
    t[p].priority < t[q].priority || (t[p].priority == t[q].priority && p <= q)
  }

  ghost predicate IsPick(t: Table, p: nat) {
    && p < NPROC && t[p].state == RUNNABLE
    && forall q :: 0 <= q < NPROC && t[q].state == RUNNABLE ==> Precedes(t, p, q)
  }

  /** Slot `i` is the first whose process has the pid. */
  ghost predicate IsFirst(t: Table, pid: nat, i: nat) {
    i < NPROC && t[i].pid == pid && forall q: nat :: q < i ==> t[q].pid != pid
  }

  /** The table after `setpriority`. */
  ghost function WithPriority(t: Table, pid: nat, priority: int): Table {
    if exists i: nat :: IsFirst(t, pid, i) then
      var i: nat :| IsFirst(t, pid, i);
      t[i := t[i].(priority := priority)]
    else t
  }

  lemma FirstGetsPriority(t: Table, pid: nat, priority: int, i: nat)
    requires IsFirst(t, pid, i)
    ensures WithPriority(t, pid, priority) == t[i := t[i].(priority := priority)]
  {
    forall j: nat | IsFirst(t, pid, j)
      ensures j == i
    {
    }
  }

  lemma NobodyGetsPriority(t: Table, pid: nat, priority: int)
    requires forall i: nat :: i < NPROC ==> t[i].pid != pid
    ensures WithPriority(t, pid, priority) == t
  {
  }

  /** `setpriority` for this pid changes a process, not an unused slot. */
  ghost predicate HitsUsed(t: Table, pid: nat) {
    exists i: nat :: IsFirst(t, pid, i) && t[i].state != UNUSED
  }

  ghost predicate PrioritiesOk(t: Table) {
    forall i :: 0 <= i < NPROC && t[i].state != UNUSED ==> 0 <= t[i].priority <= TOP_PRIORITY_NUMBER
  }

  /** `setpriority` keeps the priorities in range exactly when the number is, or when the pid is of no process. */
  lemma SetPriorityKeepsRangeExactly(t: Table, pid: nat, priority: int)
    requires PrioritiesOk(t)
    ensures PrioritiesOk(WithPriority(t, pid, priority)) <==>
              (HitsUsed(t, pid) ==> 0 <= priority <= TOP_PRIORITY_NUMBER)
  {
    if i: nat :| IsFirst(t, pid, i) {
      FirstGetsPriority(t, pid, priority, i);
      var u := WithPriority(t, pid, priority);
      assert forall j: nat :: IsFirst(t, pid, j) ==> j == i;
      assert u[i].priority == priority && u[i].state == t[i].state;
    }
  }

  /** One such call: the first process asks for priority 11. */
  lemma PriorityOutOfRange()
    ensures var t := seq(NPROC, _ => FREE_SLOT)[0 := Proc(RUNNING, 1, None, NoChan, false, TOP_PRIORITY_NUMBER)];
      PrioritiesOk(t) && HitsUsed(t, 1) && !PrioritiesOk(WithPriority(t, 1, TOP_PRIORITY_NUMBER + 1))
  {
    var t: Table := seq(NPROC, _ => FREE_SLOT)[0 := Proc(RUNNING, 1, None, NoChan, false, TOP_PRIORITY_NUMBER)];
    assert IsFirst(t, 1, 0);
    SetPriorityKeepsRangeExactly(t, 1, TOP_PRIORITY_NUMBER + 1);
  }

  // ---------- the invariant ----------

  /** Past EMBRYO and not yet a zombie. */
  predicate Alive(p: Proc) {
    p.state == SLEEPING || p.state == RUNNABLE || p.state == RUNNING
  }

  ghost predicate PidsOk(t: Table, nextpid: nat) {
    && (forall i :: 0 <= i < NPROC && t[i].state != UNUSED ==> 0 < t[i].pid < nextpid)
    && (forall i, j :: 0 <= i < NPROC && 0 <= j < NPROC && i != j && t[i].state != UNUSED && t[j].state != UNUSED ==>
                         t[i].pid != t[j].pid)
  }

  /** A process is RUNNING exactly when one CPU names it. */
  ghost predicate CpusOk(t: Table, cpus: seq<Option<nat>>, runsOn: map<nat, nat>) {
    && |cpus| == NCPU
    && (forall c :: 0 <= c < NCPU && cpus[c].Some? ==>
                      cpus[c].value < NPROC && t[cpus[c].value].state == RUNNING && cpus[c].value in runsOn &&
                          runsOn[cpus[c].value] == c)
    && (forall i :: 0 <= i < NPROC && t[i].state == RUNNING ==>
         i in runsOn && runsOn[i] < NCPU && cpus[runsOn[i]] == Some(i))
  }

  /** The parent of process `i` is alive. */
  ghost predicate ParentOk(t: Table, init: nat, i: nat)
    requires i < NPROC
  {
    var p := t[i];
    && (p.parent.Some? ==> p.parent.value < NPROC && p.parent.value != i && Alive(t[p.parent.value]))
    && (p.state == UNUSED ==> p.parent == None)
    && ((Alive(p) || p.state == ZOMBIE) && i != init ==> p.parent.Some?)
  }

  /** The first process is alive and has no parent; all others have living parents. */
  ghost predicate ParentsOk(t: Table, init: nat) {
    && init < NPROC && Alive(t[init]) && t[init].parent == None
    && forall i: nat :: i < NPROC ==> ParentOk(t, init, i)
  }

  /** A process inside fork() is alive and fills a slot of its own; only such a slot is an EMBRYO with a parent. */
  ghost predicate ForkingOk(t: Table, forking: map<nat, nat>) {
    && (forall p :: p in forking ==> p < NPROC && Alive(t[p]) && forking[p] < NPROC && t[forking[p]].state == EMBRYO)
    && (forall p, q :: p in forking && q in forking && p != q ==> forking[p] != forking[q])
    && (forall i :: 0 <= i < NPROC && t[i].state == EMBRYO && t[i].parent.Some? ==>
                      t[i].parent.value in forking && forking[t[i].parent.value] == i)
  }

  ghost predicate IsZombieChild(t: Table, p: nat, i: nat)
    requires i < NPROC
  {
    t[i].parent == Some(p) && t[i].state == ZOMBIE
  }

  /** Nobody sleeps in `wait` beside a zombie child. */
  ghost predicate WaitOk(t: Table) {
    forall p: nat, c: nat :: p < NPROC && c < NPROC && t[p].state == SLEEPING && t[p].chan == OfProc(p) ==>
        !IsZombieChild(t, p, c)
  }

  /** The zombies are the processes that have exited and have not been waited for, each in one slot. */
  ghost predicate ZombiesOk(t: Table, nextpid: nat, exited: set<nat>, reaped: seq<nat>, grave: map<nat, nat>) {
    && (forall pid :: pid in exited ==> pid < nextpid)
    && (forall i, j :: 0 <= i < j < |reaped| ==> reaped[i] != reaped[j])
    && (forall i :: 0 <= i < |reaped| ==> reaped[i] in exited)
    && (forall i :: 0 <= i < NPROC && t[i].state == ZOMBIE ==>
         t[i].pid in exited && t[i].pid !in reaped && t[i].pid in grave && grave[t[i].pid] == i)
    && (forall i :: 0 <= i < NPROC && (Alive(t[i]) || t[i].state == EMBRYO) ==> t[i].pid !in exited)
    && (forall pid :: pid in exited && pid !in reaped ==>
                        pid in grave && grave[pid] < NPROC && t[grave[pid]].state == ZOMBIE && t[grave[pid]].pid == pid)
  }

  /** No new sleeper in `wait` and no new zombie. */
  ghost predicate WaitsAsBefore(p: Proc, q: Proc) {
    && (q.state == SLEEPING && q.chan.OfProc? ==> p.state == SLEEPING && p.chan == q.chan)
    && (q.state == ZOMBIE ==> p.state == ZOMBIE && p.parent == q.parent)
  }

  lemma WaitKept(t: Table, u: Table)
    requires WaitOk(t) && forall i :: 0 <= i < NPROC ==> WaitsAsBefore(t[i], u[i])
    ensures WaitOk(u)
  {
    forall x: nat, z: nat | x < NPROC && z < NPROC && u[x].state == SLEEPING && u[x].chan == OfProc(x)
      ensures !IsZombieChild(u, x, z)
    {
      assert WaitsAsBefore(t[x], u[x]) && WaitsAsBefore(t[z], u[z]);
      assert !IsZombieChild(t, x, z);
    }
  }

  /** The table after the children of `p` in slots below `k` have been passed to the first process, which wakes up if
      one of them is a zombie. */
  ghost function Orphaned(t: Table, p: nat, init: nat, k: nat): (r: Table)
    requires k <= NPROC
    ensures forall i :: 0 <= i < NPROC ==> r[i] == OrphanedProc(t, p, init, k, i)
  {
    seq(NPROC, i requires 0 <= i < NPROC => OrphanedProc(t, p, init, k, i))
  }

  ghost function OrphanedProc(t: Table, p: nat, init: nat, k: nat, i: nat): Proc
    requires i < NPROC && k <= NPROC
  {
    var woken := if exists z: nat :: z < k && IsZombieChild(t, p, z) then WokenProc(t[i], OfProc(init)) else t[i];
    if i < k && t[i].parent == Some(p) then woken.(parent := Some(init)) else woken
  }

  /** The table after the critical section of `exit` by process `p` with parent `par`. */
  ghost function Exited(t: Table, p: nat, par: nat, init: nat): Table
    requires p < NPROC
  {
    var u := Orphaned(Woken(t, OfProc(par)), p, init, NPROC);
    u[p := u[p].(state := ZOMBIE)]
  }

  /** What `exit` of process `p` makes of another slot `q`: its children go to `init`, the parent wakes up if it
      waits, and so does `init` if one of the children is a zombie. Nothing else changes. */
  ghost predicate AfterExit(t: Table, p: nat, par: nat, init: nat, q: nat, now: Proc)
    requires q < NPROC
  {
    var was := t[q];
    && now.pid == was.pid && now.chan == was.chan && now.killed == was.killed && now.priority == was.priority
    && (was.parent == Some(p) ==> now.parent == Some(init))
    && (was.parent != Some(p) ==> now.parent == was.parent)
    && (was.state != SLEEPING ==> now.state == was.state)
    && (was.state == SLEEPING && was.chan == OfProc(par) ==> now.state == RUNNABLE)
    && (was.state == SLEEPING && was.chan == OfProc(init) && (exists z: nat :: z < NPROC && IsZombieChild(t, p, z)) ==>
          now.state == RUNNABLE)
    && (was.state == SLEEPING && was.chan != OfProc(par) && was.chan != OfProc(init) ==> now.state == SLEEPING)
    && (was.state == SLEEPING && was.chan != OfProc(par) && (forall z: nat :: z < NPROC ==> !IsZombieChild(t, p, z)) ==>
          now.state == SLEEPING)
  }

  lemma ExitedSlots(t: Table, p: nat, par: nat, init: nat)
    requires p < NPROC
    ensures forall q: nat :: q < NPROC && q != p ==> AfterExit(t, p, par, init, q, Exited(t, p, par, init)[q])
    ensures Exited(t, p, par, init)[p].(parent := t[p].parent, state := ZOMBIE) == t[p].(state := ZOMBIE)
    ensures t[p].parent != Some(p) ==> Exited(t, p, par, init)[p] == t[p].(state := ZOMBIE)
  {
    var t1 := Woken(t, OfProc(par));
    assert forall z: nat :: z < NPROC ==> (IsZombieChild(t1, p, z) <==> IsZombieChild(t, p, z));
  }

  /** Same pid, same parent, and alive, new, dead or unused as before: scheduling and sleeping change nothing else. */
  ghost predicate SameKin(p: Proc, q: Proc) {
    && p.pid == q.pid && p.parent == q.parent && Alive(p) == Alive(q)
    && (!Alive(p) ==> p.state == q.state)
  }

  /** The part of the invariant that concerns pids, parents, forks and zombies. */
  ghost predicate FamilyOk(t: Table, nextpid: nat, init: nat, forking: map<nat, nat>,
                           exited: set<nat>, reaped: seq<nat>, grave: map<nat, nat>) {
    && PidsOk(t, nextpid) && ParentsOk(t, init) && ForkingOk(t, forking)
    && ZombiesOk(t, nextpid, exited, reaped, grave)
  }

  lemma KinKeepsFamily(t: Table, u: Table, nextpid: nat, init: nat, forking: map<nat, nat>,
                       exited: set<nat>, reaped: seq<nat>, grave: map<nat, nat>)
    requires forall i :: 0 <= i < NPROC ==> SameKin(t[i], u[i])
    requires FamilyOk(t, nextpid, init, forking, exited, reaped, grave)
    ensures FamilyOk(u, nextpid, init, forking, exited, reaped, grave)
  {
    KinKeepsParents(t, u, init);
    KinKeepsForking(t, u, forking);
    KinKeepsPids(t, u, nextpid, exited, reaped, grave);
    hide PidsOk, ParentsOk, ForkingOk, ZombiesOk;
  }

  lemma KinKeepsPids(t: Table, u: Table, nextpid: nat, exited: set<nat>, reaped: seq<nat>, grave: map<nat, nat>)
    requires forall i :: 0 <= i < NPROC ==> SameKin(t[i], u[i])
    requires PidsOk(t, nextpid) && ZombiesOk(t, nextpid, exited, reaped, grave)
    ensures PidsOk(u, nextpid) && ZombiesOk(u, nextpid, exited, reaped, grave)
  {
    forall pid | pid in exited && pid !in reaped
      ensures pid in grave && grave[pid] < NPROC && u[grave[pid]].state == ZOMBIE && u[grave[pid]].pid == pid
    {
      assert SameKin(t[grave[pid]], u[grave[pid]]);
    }
  }

  lemma KinKeepsParents(t: Table, u: Table, init: nat)
    requires forall i :: 0 <= i < NPROC ==> SameKin(t[i], u[i])
    requires ParentsOk(t, init)
    ensures ParentsOk(u, init)
  {
    forall i: nat | i < NPROC
      ensures ParentOk(u, init, i)
    {
      assert ParentOk(t, init, i) && SameKin(t[i], u[i]);
      assert t[i].parent.Some? ==> SameKin(t[t[i].parent.value], u[t[i].parent.value]);
    }
  }

  lemma KinKeepsForking(t: Table, u: Table, forking: map<nat, nat>)
    requires forall i :: 0 <= i < NPROC ==> SameKin(t[i], u[i])
    requires ForkingOk(t, forking)
    ensures ForkingOk(u, forking)
  {
    forall p | p in forking
      ensures p < NPROC && Alive(u[p]) && forking[p] < NPROC && u[forking[p]].state == EMBRYO
    {
      assert SameKin(t[p], u[p]) && SameKin(t[forking[p]], u[forking[p]]);
    }
  }

  datatype WaitOutcome = Reaped(pid: nat) | NoChildren | Waiting

  lemma FirstTableIsOk()
    ensures var t := seq(NPROC, _ => FREE_SLOT)[0 := Proc(RUNNABLE, 1, None, NoChan, false, TOP_PRIORITY_NUMBER)];
      FamilyOk(t, 2, 0, map[], {}, [], map[]) && WaitOk(t) && CpusOk(t, seq(NCPU, _ => None), map[]) && PrioritiesOk(t)
  {
  }

  class ProcTable {
    var proc: Table
    var cpus: seq<Option<nat>>
    var nextpid: nat
    var initproc: nat
    // The CPU of each running process.
    ghost var runsOn: map<nat, nat>
    // Processes inside fork(), each with the slot it is filling.
    ghost var forking: map<nat, nat>
    // Pids of the processes that have exited, the pids wait() has returned, and the slots of the zombies.
    ghost var exited: set<nat>
    ghost var reaped: seq<nat>
    ghost var grave: map<nat, nat>

    ghost predicate Inv()
      reads this
    {
      && FamilyOk(proc, nextpid, initproc, forking, exited, reaped, grave)
      && CpusOk(proc, cpus, runsOn)
      && WaitOk(proc)
    }

    /** The process that CPU `c` is running. */
    ghost predicate OnCpu(c: nat, p: nat)
      reads this
    {
      c < |cpus| && cpus[c] == Some(p) && p < NPROC && proc[p].state == RUNNING
    }

    /** `userinit` on an empty table: the first process is ready to run. */
    constructor ()
      ensures Inv() && PrioritiesOk(proc)
      ensures proc[initproc] == Proc(RUNNABLE, 1, None, NoChan, false, 10) && nextpid == 2
      ensures forall i :: 0 <= i < NPROC && i != initproc ==> proc[i] == FREE_SLOT
      ensures forall c :: 0 <= c < NCPU ==> cpus[c] == None
    {
      proc := seq(NPROC, _ => FREE_SLOT)[0 := Proc(RUNNABLE, 1, None, NoChan, false, TOP_PRIORITY_NUMBER)];
      cpus := seq(NCPU, _ => None);
      nextpid, initproc := 2, 0;
      runsOn, forking, exited, reaped, grave := map[], map[], {}, [], map[];
      FirstTableIsOk();
      hide *;
    }

    /** `wakeup1`. */
    method Wakeup1(chan: Chan)
      modifies this`proc
      ensures proc == Woken(old(proc), chan)
    {
      var was := proc;
      for i := 0 to NPROC
        invariant forall q :: 0 <= q < NPROC ==> proc[q] == if q < i then WokenProc(was[q], chan) else was[q]
      {
        if proc[i].state == SLEEPING && proc[i].chan == chan {
          proc := proc[i := proc[i].(state := RUNNABLE)];
        }
      }
    }

    /** `wakeup`. */
    method Wakeup(chan: Chan)
      requires Inv()
      modifies this`proc
      ensures Inv()
      ensures forall i: nat :: i < NPROC && old(proc)[i].state == SLEEPING && old(proc)[i].chan == chan ==>
                proc[i] == old(proc)[i].(state := RUNNABLE)
      ensures forall i: nat :: i < NPROC && !(old(proc)[i].state == SLEEPING && old(proc)[i].chan == chan) ==>
                proc[i] == old(proc)[i]
    {
      hide FamilyOk, WaitOk;
      Wakeup1(chan);
      KinKeepsFamily(old(proc), proc, nextpid, initproc, forking, exited, reaped, grave);
      WaitKept(old(proc), proc);
    }

    /** `sleep` on a channel other than a process's own, once `ptable.lock` is held. */
    method Sleep(c: nat, ghost p: nat, addr: nat)
      requires Inv() && OnCpu(c, p)
      modifies this`proc, this`cpus
      ensures Inv()
      ensures proc == old(proc)[p := old(proc[p]).(state := SLEEPING, chan := Other(addr))] &&
                cpus == old(cpus)[c := None]
    {
      hide FamilyOk, WaitOk;
      var curproc := cpus[c].value;
      proc := proc[curproc := proc[curproc].(chan := Other(addr), state := SLEEPING)];
      cpus := cpus[c := None];
      KinKeepsFamily(old(proc), proc, nextpid, initproc, forking, exited, reaped, grave);
      WaitKept(old(proc), proc);
    }

    /** `yield`. */
    method Yield(c: nat, ghost p: nat)
      requires Inv() && OnCpu(c, p)
      modifies this`proc, this`cpus
      ensures Inv() && (old(PrioritiesOk(proc)) ==> PrioritiesOk(proc))
      ensures proc == old(proc)[p := old(proc[p]).(state := RUNNABLE, priority := proc[p].priority)]
      ensures proc[p].priority == old(proc[p]).priority - if old(proc[p]).priority > 0 then 1 else 0
      ensures cpus == old(cpus)[c := None]
    {
      hide FamilyOk, WaitOk;
      var curproc := cpus[c].value;
      if proc[curproc].priority > 0 {
        proc := proc[curproc := proc[curproc].(priority := proc[curproc].priority - 1)];
      }
      proc := proc[curproc := proc[curproc].(state := RUNNABLE)];
      cpus := cpus[c := None];
      KinKeepsFamily(old(proc), proc, nextpid, initproc, forking, exited, reaped, grave);
      WaitKept(old(proc), proc);
    }

    /** One round of `scheduler` on an idle CPU: the runnable process of least priority number, the lowest slot among
        equals, starts running. */
    method Dispatch(c: nat) returns (p: Option<nat>)
      requires Inv() && c < NCPU && cpus[c] == None
      modifies this`proc, this`cpus, this`runsOn
      ensures Inv() && (old(PrioritiesOk(proc)) ==> PrioritiesOk(proc))
      ensures p == None <==> forall i :: 0 <= i < NPROC ==> old(proc)[i].state != RUNNABLE
      ensures p == None ==> unchanged(this)
      ensures p.Some? ==> IsPick(old(proc), p.value) && OnCpu(c, p.value) && cpus == old(cpus)[c := p]
      ensures p.Some? ==> proc == old(proc)[p.value := old(proc[p.value]).(state := RUNNING)]
    {
      hide FamilyOk, WaitOk;
      p := None;
      for i := 0 to NPROC
        modifies {}
        invariant p == None ==> forall q :: 0 <= q < i ==> proc[q].state != RUNNABLE
        invariant p.Some? ==> p.value < i && proc[p.value].state == RUNNABLE
        invariant p.Some? ==> forall q :: 0 <= q < i && proc[q].state == RUNNABLE ==> Precedes(proc, p.value, q)
      {
        if proc[i].state == RUNNABLE {
          if p == None || proc[i].priority < proc[p.value].priority {
            p := Some(i);
          }
        }
      }
      if p.Some? {
        cpus := cpus[c := p];
        runsOn := runsOn[p.value := c];
        proc := proc[p.value := proc[p.value].(state := RUNNING)];
        KinKeepsFamily(old(proc), proc, nextpid, initproc, forking, exited, reaped, grave);
        WaitKept(old(proc), proc);
      }
    }

    /** The end of `sleep`, when its caller runs again. */
    method Resume(c: nat, ghost p: nat)
      requires Inv() && OnCpu(c, p)
      modifies this`proc
      ensures Inv() && OnCpu(c, p) && proc == old(proc)[p := old(proc[p]).(chan := NoChan)]
    {
      hide FamilyOk, WaitOk;
      var curproc := cpus[c].value;
      proc := proc[curproc := proc[curproc].(chan := NoChan)];
      KinKeepsFamily(old(proc), proc, nextpid, initproc, forking, exited, reaped, grave);
      WaitKept(old(proc), proc);
    }

    /** `kill`: the first slot with the pid. */
    method Kill(pid: nat) returns (found: bool, ghost i: nat)
      requires Inv()
      modifies this`proc
      ensures Inv()
      ensures !found ==> proc == old(proc) && forall q :: 0 <= q < NPROC ==> proc[q].pid != pid
      ensures found ==> i < NPROC && old(proc)[i].pid == pid && forall q :: 0 <= q < i ==> old(proc)[q].pid != pid
      ensures found ==> var p := old(proc)[i];
                          proc == old(proc)[i := p.(killed := true, state := if p.state == SLEEPING then RUNNABLE
                              else p.state)]
    {
      hide FamilyOk, WaitOk;
      for k := 0 to NPROC
        invariant proc == old(proc) && forall q :: 0 <= q < k ==> proc[q].pid != pid
      {
        if proc[k].pid == pid {
          proc := proc[k := proc[k].(killed := true, state := if proc[k].state == SLEEPING then RUNNABLE
              else proc[k].state)];
          KinKeepsFamily(old(proc), proc, nextpid, initproc, forking, exited, reaped, grave);
          WaitKept(old(proc), proc);
          return true, k;
        }
      }
      return false, 0;
    }

    /** The loop at the start of `scheduler`, run once for each CPU: every runnable process gets a lower number. */
    method Age()
      requires Inv()
      modifies this`proc
      ensures Inv() && (old(PrioritiesOk(proc)) ==> PrioritiesOk(proc))
      ensures proc == Aged(old(proc), 1)
      ensures forall i :: 0 <= i < NPROC && old(proc)[i].state != RUNNABLE ==> proc[i] == old(proc)[i]
      ensures forall i :: 0 <= i < NPROC && old(proc)[i].state == RUNNABLE ==>
                && proc[i] == old(proc)[i].(priority := proc[i].priority)
                && proc[i].priority == old(proc)[i].priority - if old(proc)[i].priority > 0 then 1 else 0
    {
      hide FamilyOk, WaitOk;
      for k := 0 to NPROC
        invariant forall i :: 0 <= i < NPROC ==>
                  proc[i] == if i >= k || old(proc)[i].state != RUNNABLE then old(proc)[i]
                                                            else old(proc)[i].(priority :=
                                                                Raised(old(proc)[i].priority))
      {
        if proc[k].state == RUNNABLE && proc[k].priority > 0 {
          proc := proc[k := proc[k].(priority := proc[k].priority - 1)];
        }
      }
      KinKeepsFamily(old(proc), proc, nextpid, initproc, forking, exited, reaped, grave);
      WaitKept(old(proc), proc);
    }

    /** `setpriority` takes any number. */
    method SetPriority(pid: nat, priority: int) returns (found: bool)
      requires Inv()
      modifies this`proc
      ensures Inv() && proc == WithPriority(old(proc), pid, priority)
      ensures found <==> exists i: nat :: i < NPROC && old(proc)[i].pid == pid
      ensures !found ==> proc == old(proc)
      ensures forall i: nat :: IsFirst(old(proc), pid, i) ==>
                proc == old(proc)[i := old(proc)[i].(priority := priority)]
      ensures old(PrioritiesOk(proc)) ==>
                (PrioritiesOk(proc) <==> (old(HitsUsed(proc, pid)) ==> 0 <= priority <= TOP_PRIORITY_NUMBER))
    {
      hide FamilyOk, WaitOk, WithPriority, PrioritiesOk;
      if PrioritiesOk(proc) {
        SetPriorityKeepsRangeExactly(proc, pid, priority);
      }
      for k := 0 to NPROC
        invariant proc == old(proc) && forall q :: 0 <= q < k ==> proc[q].pid != pid
      {
        if proc[k].pid == pid {
          assert IsFirst(proc, pid, k);
          FirstGetsPriority(proc, pid, priority, k);
          proc := proc[k := proc[k].(priority := priority)];
          KinKeepsFamily(old(proc), proc, nextpid, initproc, forking, exited, reaped, grave);
          WaitKept(old(proc), proc);
          return true;
        }
      }
      NobodyGetsPriority(proc, pid, priority);
      return false;
    }

    /** `allocproc`, called by process `p` inside fork(): the first unused slot. */
    method AllocProc(ghost p: nat) returns (r: Option<nat>)
      requires Inv() && p < NPROC && Alive(proc[p]) && p !in forking
      modifies this`proc, this`nextpid, this`forking
      ensures Inv() && (old(PrioritiesOk(proc)) ==> PrioritiesOk(proc))
      ensures r == None ==> unchanged(this) && forall i :: 0 <= i < NPROC ==> proc[i].state != UNUSED
      ensures r.Some? ==> var i := r.value;
                && i < NPROC && old(proc)[i].state == UNUSED &&
                     (forall q :: 0 <= q < i ==> old(proc)[q].state != UNUSED)
                && proc == old(proc)[i :=
                     old(proc)[i].(state := EMBRYO, pid := old(nextpid), priority := TOP_PRIORITY_NUMBER)]
                && nextpid == old(nextpid) + 1 && forking == old(forking)[p := i]
    {
      hide FamilyOk, WaitOk;
      for i := 0 to NPROC
        invariant unchanged(this)
        invariant forall q :: 0 <= q < i ==> proc[q].state != UNUSED
      {
        if proc[i].state == UNUSED {
          FamilyAfterAlloc(proc, nextpid, initproc, forking, exited, reaped, grave, p, i);
          proc := proc[i := proc[i].(state := EMBRYO, pid := nextpid, priority := TOP_PRIORITY_NUMBER)];
          nextpid := nextpid + 1;
          forking := forking[p := i];
          WaitKept(old(proc), proc);
          return Some(i);
        }
      }
      return None;
    }

    lemma EmbryoIsNew(p: nat)
      requires Inv() && p in forking
      ensures forking[p] < NPROC && proc[forking[p]].state == EMBRYO
    {
    }

    /** fork() fails for want of memory: the slot is free again. */
    method AbandonFork(ghost p: nat, i: nat)
      requires Inv() && p in forking && forking[p] == i && i < NPROC && proc[i].parent == None
      modifies this`proc, this`forking
      ensures Inv()
      ensures proc == old(proc)[i := old(proc)[i].(state := UNUSED)] && forking == old(forking) - {p}
    {
      EmbryoIsNew(p);
      hide FamilyOk, WaitOk, CpusOk, PrioritiesOk;
      SlotKeepsRest(proc, cpus, runsOn, i, proc[i].(state := UNUSED));
      FamilyAfterAbandon(proc, nextpid, initproc, forking, exited, reaped, grave, p, i);
      proc := proc[i := proc[i].(state := UNUSED)];
      forking := forking - {p};
    }

    /** fork() names the parent of the new process. */
    method SetParent(p: nat, i: nat)
      requires Inv() && p in forking && forking[p] == i && i < NPROC
      modifies this`proc
      ensures Inv()
      ensures proc == old(proc)[i := old(proc)[i].(parent := Some(p))]
    {
      EmbryoIsNew(p);
      hide FamilyOk, WaitOk, CpusOk, PrioritiesOk;
      SlotKeepsRest(proc, cpus, runsOn, i, proc[i].(parent := Some(p)));
      FamilyAfterSetParent(proc, nextpid, initproc, forking, exited, reaped, grave, p, i);
      proc := proc[i := proc[i].(parent := Some(p))];
    }

    /** fork() lets the new process run. */
    method FinishFork(ghost p: nat, i: nat)
      requires Inv() && p in forking && forking[p] == i && i < NPROC && proc[i].parent == Some(p)
      modifies this`proc, this`forking
      ensures Inv() && (old(PrioritiesOk(proc)) ==> PrioritiesOk(proc))
      ensures proc == old(proc)[i := old(proc)[i].(state := RUNNABLE)] && forking == old(forking) - {p}
    {
      EmbryoIsNew(p);
      hide FamilyOk, WaitOk, CpusOk, PrioritiesOk;
      SlotKeepsRest(proc, cpus, runsOn, i, proc[i].(state := RUNNABLE));
      FamilyAfterFork(proc, nextpid, initproc, forking, exited, reaped, grave, p, i);
      proc := proc[i := proc[i].(state := RUNNABLE)];
      forking := forking - {p};
    }

    /** The critical section of `exit`; false is the panic "init exiting". */
    method Exit(c: nat, ghost p: nat) returns (ok: bool)
      requires Inv() && OnCpu(c, p) && p !in forking
      modifies this`proc, this`cpus, this`exited, this`grave
      ensures Inv() && (old(PrioritiesOk(proc)) ==> PrioritiesOk(proc))
      ensures ok <==> p != initproc
      ensures !ok ==> unchanged(this)
      ensures ok ==> old(proc)[p].parent.Some? && proc[p] == old(proc)[p].(state := ZOMBIE)
      ensures ok ==>
                forall q: nat :: q < NPROC && q != p ==>
                  AfterExit(old(proc), p, old(proc)[p].parent.value, initproc, q, proc[q])
      ensures ok ==> cpus == old(cpus)[c := None] && exited == old(exited) + {old(proc)[p].pid}
    {
      var curproc := cpus[c].value;
      if curproc == initproc {
        return false;
      }
      HasParent(proc, initproc, p);
      hide FamilyOk, CpusOk, WaitOk, Orphaned, PrioritiesOk;
      PrioritiesAfterExit(proc, initproc, p, proc[p].parent.value);
      ghost var pid, par := proc[p].pid, proc[p].parent.value;
      FamilyAfterExit(proc, nextpid, initproc, forking, exited, reaped, grave, p, par);
      WaitAfterExit(proc, initproc, p, par);
      CpusAfterExit(proc, cpus, runsOn, initproc, c, p, par);
      BecomeZombie(curproc, par);
      cpus := cpus[c := None];
      exited := exited + {pid};
      grave := grave[pid := p];
      ExitedSlots(old(proc), p, par, initproc);
      return true;
    }

    /** What `exit` does to the table. */
    method BecomeZombie(p: nat, ghost par: nat)
      requires p < NPROC && initproc < NPROC && proc[p].parent == Some(par)
      modifies this`proc
      ensures proc == Exited(old(proc), p, par, initproc)
    {
      Wakeup1(OfProc(proc[p].parent.value));
      Orphan(p);
      proc := proc[p := proc[p].(state := ZOMBIE)];
    }

    /** The loop of `exit` that passes the children on. */
    method Orphan(p: nat)
      requires initproc < NPROC
      modifies this`proc
      ensures proc == Orphaned(old(proc), p, initproc, NPROC)
    {
      var was := proc;
      for i := 0 to NPROC
        invariant proc == Orphaned(was, p, initproc, i)
      {
        if proc[i].parent == Some(p) {
          proc := proc[i := proc[i].(parent := Some(initproc))];
          if proc[i].state == ZOMBIE {
            Wakeup1(OfProc(initproc));
          }
        }
        OrphanStep(was, p, initproc, i);
      }
    }

    /** One scan of `wait`: the first zombie child is reaped, or there is nothing to wait for, or the caller sleeps
        until a child exits. */
    method Wait(c: nat, ghost p: nat) returns (r: WaitOutcome, ghost i: nat)
      requires Inv() && OnCpu(c, p)
      modifies this`proc, this`cpus, this`reaped
      ensures Inv() && (old(PrioritiesOk(proc)) ==> PrioritiesOk(proc))
      ensures r.Reaped? ==> i < NPROC && old(IsZombieChild(proc, p, i)) && r.pid == old(proc)[i].pid
      ensures r.Reaped? ==>
                proc == old(proc)[i := old(proc)[i].(state := UNUSED, pid := 0, parent := None, killed := false)]
      ensures r.Reaped? ==> reaped == old(reaped) + [r.pid] && cpus == old(cpus)
      ensures !r.Reaped? ==> reaped == old(reaped) && forall k: nat :: k < NPROC ==> !old(IsZombieChild(proc, p, k))
      ensures r == NoChildren ==> unchanged(this)
      ensures r == NoChildren ==> proc[p].killed || forall k :: 0 <= k < NPROC ==> proc[k].parent != Some(p)
      ensures r == Waiting ==>
                && proc == old(proc)[p := old(proc)[p].(state := SLEEPING, chan := OfProc(p))]
                && cpus == old(cpus)[c := None]
      ensures r == Waiting ==> !proc[p].killed && exists k :: 0 <= k < NPROC && proc[k].parent == Some(p)
    {
      hide FamilyOk, WaitOk;
      var curproc := cpus[c].value;
      var havekids := false;
      for k := 0 to NPROC
        invariant unchanged(this)
        invariant havekids <==> exists q :: 0 <= q < k && proc[q].parent == Some(p)
        invariant forall q: nat :: q < k ==> !IsZombieChild(proc, p, q)
      {
        if proc[k].parent == Some(curproc) {
          havekids := true;
          if proc[k].state == ZOMBIE {
            var pid := proc[k].pid;
            FamilyAfterReap(proc, nextpid, initproc, forking, exited, reaped, grave, k);
            proc := proc[k := proc[k].(pid := 0, parent := None, killed := false, state := UNUSED)];
            reaped := reaped + [pid];
            WaitKept(old(proc), proc);
            return Reaped(pid), k;
          }
        }
      }
      if !havekids || proc[curproc].killed {
        return NoChildren, 0;
      }
      KinKeepsFamily(proc, proc[curproc := proc[curproc].(chan := OfProc(curproc), state := SLEEPING)], nextpid,
          initproc, forking, exited, reaped, grave);
      proc := proc[curproc := proc[curproc].(chan := OfProc(curproc), state := SLEEPING)];
      cpus := cpus[c := None];
      WaitAfterSleep(old(proc), p);
      return Waiting, 0;
    }
  }

  /** `yield` lowers the number of the process that gives up the CPU. */
  function Raised(priority: int): int {
    if priority > 0 then priority - 1 else priority
  }

  // ---------- changes in the family ----------

  /** What may happen to a slot that is neither alive nor a zombie: it may be filled with a new pid, given a parent,
      freed or set running. */
  ghost predicate SlotMayBecome(t: Table, nextpid: nat, i: nat, q: Proc) {
    && i < NPROC && (t[i].state == UNUSED || t[i].state == EMBRYO)
    && (q.state == UNUSED || q.state == EMBRYO || q.state == RUNNABLE)
    && (q.state != UNUSED ==> q.pid == nextpid || (q.pid == t[i].pid && t[i].state != UNUSED))
    && (q.state == UNUSED ==> q.parent == None)
    && (q.state == RUNNABLE ==> q.parent.Some?)
    && (q.parent.Some? ==> q.parent.value < NPROC && Alive(t[q.parent.value]))
  }

  lemma PidsAfterSlot(t: Table, nextpid: nat, i: nat, q: Proc)
    requires PidsOk(t, nextpid) && SlotMayBecome(t, nextpid, i, q) && nextpid > 0
    ensures PidsOk(t[i := q], nextpid + 1) && (q.pid != nextpid ==> PidsOk(t[i := q], nextpid))
  {
  }

  lemma ZombiesAfterSlot(t: Table, nextpid: nat, exited: set<nat>, reaped: seq<nat>, grave: map<nat, nat>, i: nat,
                         q: Proc)
    requires ZombiesOk(t, nextpid, exited, reaped, grave) && SlotMayBecome(t, nextpid, i, q)
    ensures ZombiesOk(t[i := q], nextpid + 1, exited, reaped, grave) &&
              ZombiesOk(t[i := q], nextpid, exited, reaped, grave)
  {
  }

  lemma ParentsAfterSlot(t: Table, init: nat, nextpid: nat, i: nat, q: Proc)
    requires ParentsOk(t, init) && SlotMayBecome(t, nextpid, i, q)
    ensures ParentsOk(t[i := q], init)
  {
    var u: Table := t[i := q];
    forall k: nat | k < NPROC
      ensures ParentOk(u, init, k)
    {
      assert ParentOk(t, init, k);
    }
  }

  lemma FamilyAfterAlloc(t: Table, nextpid: nat, init: nat, forking: map<nat, nat>,
                         exited: set<nat>, reaped: seq<nat>, grave: map<nat, nat>, p: nat, i: nat)
    requires FamilyOk(t, nextpid, init, forking, exited, reaped, grave)
    requires i < NPROC && t[i].state == UNUSED && p < NPROC && Alive(t[p]) && p !in forking
    ensures FamilyOk(t[i := t[i].(state := EMBRYO, pid := nextpid, priority := TOP_PRIORITY_NUMBER)], nextpid + 1, init,
                     forking[p := i], exited, reaped, grave)
  {
    hide PidsOk, ZombiesOk;
    var q := t[i].(state := EMBRYO, pid := nextpid, priority := TOP_PRIORITY_NUMBER);
    assert ParentOk(t, init, i);
    PidIsPositive(t, nextpid, init);
    PidsAfterSlot(t, nextpid, i, q);
    ZombiesAfterSlot(t, nextpid, exited, reaped, grave, i, q);
    ParentsAfterSlot(t, init, nextpid, i, q);
  }

  lemma PidIsPositive(t: Table, nextpid: nat, init: nat)
    requires PidsOk(t, nextpid) && ParentsOk(t, init)
    ensures nextpid > 0
  {
    assert 0 < t[init].pid < nextpid;
  }

  lemma FamilyAfterAbandon(t: Table, nextpid: nat, init: nat, forking: map<nat, nat>,
                         exited: set<nat>, reaped: seq<nat>, grave: map<nat, nat>, p: nat, i: nat)
    requires FamilyOk(t, nextpid, init, forking, exited, reaped, grave)
    requires p in forking && forking[p] == i && i < NPROC && t[i].parent == None
    ensures FamilyOk(t[i := t[i].(state := UNUSED)], nextpid, init, forking - {p}, exited, reaped, grave)
  {
    hide PidsOk, ZombiesOk;
    PidIsPositive(t, nextpid, init);
    var q := t[i].(state := UNUSED);
    EmbryoPidIsOld(t, nextpid, i);
    PidsAfterSlot(t, nextpid, i, q);
    ZombiesAfterSlot(t, nextpid, exited, reaped, grave, i, q);
    ParentsAfterSlot(t, init, nextpid, i, q);
  }

  lemma EmbryoPidIsOld(t: Table, nextpid: nat, i: nat)
    requires PidsOk(t, nextpid) && i < NPROC && t[i].state == EMBRYO
    ensures t[i].pid != nextpid
  {
  }

  lemma FamilyAfterSetParent(t: Table, nextpid: nat, init: nat, forking: map<nat, nat>,
                         exited: set<nat>, reaped: seq<nat>, grave: map<nat, nat>, p: nat, i: nat)
    requires FamilyOk(t, nextpid, init, forking, exited, reaped, grave)
    requires p in forking && forking[p] == i && i < NPROC
    ensures FamilyOk(t[i := t[i].(parent := Some(p))], nextpid, init, forking, exited, reaped, grave)
  {
    hide PidsOk, ZombiesOk;
    PidIsPositive(t, nextpid, init);
    var q := t[i].(parent := Some(p));
    EmbryoPidIsOld(t, nextpid, i);
    PidsAfterSlot(t, nextpid, i, q);
    ZombiesAfterSlot(t, nextpid, exited, reaped, grave, i, q);
    ParentsAfterSlot(t, init, nextpid, i, q);
  }

  lemma FamilyAfterFork(t: Table, nextpid: nat, init: nat, forking: map<nat, nat>,
                         exited: set<nat>, reaped: seq<nat>, grave: map<nat, nat>, p: nat, i: nat)
    requires FamilyOk(t, nextpid, init, forking, exited, reaped, grave)
    requires p in forking && forking[p] == i && i < NPROC && t[i].parent == Some(p)
    ensures FamilyOk(t[i := t[i].(state := RUNNABLE)], nextpid, init, forking - {p}, exited, reaped, grave)
  {
    hide PidsOk, ZombiesOk;
    PidIsPositive(t, nextpid, init);
    var q := t[i].(state := RUNNABLE);
    EmbryoPidIsOld(t, nextpid, i);
    PidsAfterSlot(t, nextpid, i, q);
    ZombiesAfterSlot(t, nextpid, exited, reaped, grave, i, q);
    ParentsAfterSlot(t, init, nextpid, i, q);
  }

  lemma HasParent(t: Table, init: nat, p: nat)
    requires ParentsOk(t, init) && p < NPROC && Alive(t[p]) && p != init
    ensures t[p].parent.Some? && t[p].parent.value != p
  {
    assert ParentOk(t, init, p);
  }

  /** One round of the loop that passes the children on. */
  lemma OrphanStep(t: Table, p: nat, init: nat, i: nat)
    requires i < NPROC
    ensures var u := Orphaned(t, p, init, i);
            var v: Table := u[i := u[i].(parent := Some(init))];
            && u[i].parent == t[i].parent && (u[i].state == ZOMBIE <==> t[i].state == ZOMBIE)
            && Orphaned(t, p, init, i + 1) == if t[i].parent != Some(p) then u else if t[i].state == ZOMBIE
                 then Woken(v, OfProc(init)) else v
  {
    assert (exists z: nat :: z < i + 1 && IsZombieChild(t, p, z)) <==>
        (exists z: nat :: z < i && IsZombieChild(t, p, z)) || IsZombieChild(t, p, i);
  }

  lemma FamilyAfterOrphan(t: Table, nextpid: nat, init: nat, forking: map<nat, nat>,
                          exited: set<nat>, reaped: seq<nat>, grave: map<nat, nat>, p: nat)
    requires FamilyOk(t, nextpid, init, forking, exited, reaped, grave)
    requires p < NPROC && p != init && p !in forking
    ensures var u := Orphaned(t, p, init, NPROC);
            && FamilyOk(u, nextpid, init, forking, exited, reaped, grave) && SameKin(t[p], u[p])
            && forall k :: 0 <= k < NPROC ==> u[k].parent != Some(p)
  {
    var u := Orphaned(t, p, init, NPROC);
    var v: Table := seq(NPROC, i requires 0 <= i < NPROC => if t[i].parent == Some(p) then t[i].(parent := Some(init))
        else t[i]);
    hide PidsOk, ZombiesOk;
    AdoptedIsFamily(t, v, nextpid, init, forking, exited, reaped, grave, p);
    assert ParentOk(t, init, p);
    KinKeepsFamily(v, u, nextpid, init, forking, exited, reaped, grave);
  }

  lemma AdoptedIsFamily(t: Table, v: Table, nextpid: nat, init: nat, forking: map<nat, nat>,
                        exited: set<nat>, reaped: seq<nat>, grave: map<nat, nat>, p: nat)
    requires FamilyOk(t, nextpid, init, forking, exited, reaped, grave)
    requires p < NPROC && p != init && p !in forking
    requires forall i :: 0 <= i < NPROC ==> v[i] == if t[i].parent == Some(p) then t[i].(parent := Some(init)) else t[i]
    ensures FamilyOk(v, nextpid, init, forking, exited, reaped, grave)
  {
    AdoptedParents(t, v, init, p);
    AdoptedPids(t, v, nextpid, exited, reaped, grave);
    hide PidsOk, ZombiesOk, ParentsOk;
  }

  lemma AdoptedParents(t: Table, v: Table, init: nat, p: nat)
    requires ParentsOk(t, init) && p < NPROC && p != init
    requires forall i :: 0 <= i < NPROC ==> v[i] == if t[i].parent == Some(p) then t[i].(parent := Some(init)) else t[i]
    ensures ParentsOk(v, init)
  {
    forall k: nat | k < NPROC
      ensures ParentOk(v, init, k)
    {
      assert ParentOk(t, init, k);
    }
  }

  lemma AdoptedPids(t: Table, v: Table, nextpid: nat, exited: set<nat>, reaped: seq<nat>, grave: map<nat, nat>)
    requires PidsOk(t, nextpid) && ZombiesOk(t, nextpid, exited, reaped, grave)
    requires forall i :: 0 <= i < NPROC ==> v[i].pid == t[i].pid && v[i].state == t[i].state
    ensures PidsOk(v, nextpid) && ZombiesOk(v, nextpid, exited, reaped, grave)
  {
  }

  lemma FamilyAfterZombie(t: Table, nextpid: nat, init: nat, forking: map<nat, nat>,
                          exited: set<nat>, reaped: seq<nat>, grave: map<nat, nat>, p: nat)
    requires FamilyOk(t, nextpid, init, forking, exited, reaped, grave)
    requires p < NPROC && Alive(t[p]) && p != init && p !in forking &&
              forall k :: 0 <= k < NPROC ==> t[k].parent != Some(p)
    ensures FamilyOk(t[p := t[p].(state := ZOMBIE)], nextpid, init, forking, exited + {t[p].pid}, reaped,
              grave[t[p].pid := p])
  {
    ParentsAfterZombie(t, init, p);
    ZombiesAfterExit(t, nextpid, exited, reaped, grave, p);
    hide ParentsOk, ZombiesOk;
  }

  lemma ParentsAfterZombie(t: Table, init: nat, p: nat)
    requires ParentsOk(t, init) && p < NPROC && Alive(t[p]) && p != init &&
              forall k :: 0 <= k < NPROC ==> t[k].parent != Some(p)
    ensures ParentsOk(t[p := t[p].(state := ZOMBIE)], init)
  {
    var u: Table := t[p := t[p].(state := ZOMBIE)];
    forall k: nat | k < NPROC
      ensures ParentOk(u, init, k)
    {
      assert ParentOk(t, init, k);
    }
  }

  lemma ZombiesAfterExit(t: Table, nextpid: nat, exited: set<nat>, reaped: seq<nat>, grave: map<nat, nat>, p: nat)
    requires PidsOk(t, nextpid) && ZombiesOk(t, nextpid, exited, reaped, grave) && p < NPROC && Alive(t[p])
    ensures ZombiesOk(t[p := t[p].(state := ZOMBIE)], nextpid, exited + {t[p].pid}, reaped, grave[t[p].pid := p])
  {
  }

  lemma FamilyAfterExit(t: Table, nextpid: nat, init: nat, forking: map<nat, nat>,
                        exited: set<nat>, reaped: seq<nat>, grave: map<nat, nat>, p: nat, par: nat)
    requires FamilyOk(t, nextpid, init, forking, exited, reaped, grave)
    requires p < NPROC && Alive(t[p]) && p != init && p !in forking
    ensures FamilyOk(Exited(t, p, par, init), nextpid, init, forking, exited + {t[p].pid}, reaped, grave[t[p].pid := p])
  {
    hide FamilyOk, WaitOk;
    var t1 := Woken(t, OfProc(par));
    KinKeepsFamily(t, t1, nextpid, init, forking, exited, reaped, grave);
    FamilyAfterOrphan(t1, nextpid, init, forking, exited, reaped, grave, p);
    FamilyAfterZombie(Orphaned(t1, p, init, NPROC), nextpid, init, forking, exited, reaped, grave, p);
  }

  lemma WaitAfterSleep(t: Table, p: nat)
    requires WaitOk(t) && p < NPROC && t[p].state == RUNNING && forall k: nat :: k < NPROC ==> !IsZombieChild(t, p, k)
    ensures WaitOk(t[p := t[p].(chan := OfProc(p), state := SLEEPING)])
  {
    var u: Table := t[p := t[p].(chan := OfProc(p), state := SLEEPING)];
    forall x: nat, z: nat | x < NPROC && z < NPROC && u[x].state == SLEEPING && u[x].chan == OfProc(x)
      ensures !IsZombieChild(u, x, z)
    {
      assert !IsZombieChild(t, x, z);
    }
  }

  lemma WaitAfterExit(t: Table, init: nat, p: nat, par: nat)
    requires WaitOk(t) && p < NPROC && t[p].parent == Some(par) && t[p].state == RUNNING && par != p
    ensures WaitOk(Exited(t, p, par, init))
  {
    var t1 := Woken(t, OfProc(par));
    var v, u := Orphaned(t1, p, init, NPROC), Exited(t, p, par, init);
    forall x: nat, z: nat | x < NPROC && z < NPROC && u[x].state == SLEEPING && u[x].chan == OfProc(x)
      ensures !IsZombieChild(u, x, z)
    {
      assert t[x].state == SLEEPING && t[x].chan == OfProc(x) && x != par;
      assert !IsZombieChild(t, x, z);
      if t[z].parent == Some(p) && t[z].state == ZOMBIE {
        assert IsZombieChild(t1, p, z);
      }
    }
  }

  /** The rest of the invariant does not notice a change to a slot that is neither running nor a zombie nor asleep. */
  lemma SlotKeepsRest(t: Table, cpus: seq<Option<nat>>, runsOn: map<nat, nat>, i: nat, q: Proc)
    requires CpusOk(t, cpus, runsOn) && WaitOk(t) && i < NPROC
    requires t[i].state == EMBRYO && (q.state == UNUSED || q.state == EMBRYO || q.state == RUNNABLE) &&
              q.priority == t[i].priority
    ensures CpusOk(t[i := q], cpus, runsOn) && WaitOk(t[i := q])
    ensures PrioritiesOk(t) ==> PrioritiesOk(t[i := q])
  {
    WaitKept(t, t[i := q]);
  }

  lemma PrioritiesAfterExit(t: Table, init: nat, p: nat, par: nat)
    requires p < NPROC && Alive(t[p])
    ensures PrioritiesOk(t) ==> PrioritiesOk(Exited(t, p, par, init))
  {
  }

  lemma CpusAfterExit(t: Table, cpus: seq<Option<nat>>, runsOn: map<nat, nat>, init: nat, c: nat, p: nat, par: nat)
    requires CpusOk(t, cpus, runsOn) && c < NCPU && cpus[c] == Some(p) && p < NPROC
    ensures CpusOk(Exited(t, p, par, init), cpus[c := None], runsOn)
  {
  }

  lemma FamilyAfterReap(t: Table, nextpid: nat, init: nat, forking: map<nat, nat>,
                        exited: set<nat>, reaped: seq<nat>, grave: map<nat, nat>, i: nat)
    requires FamilyOk(t, nextpid, init, forking, exited, reaped, grave)
    requires i < NPROC && t[i].state == ZOMBIE
    ensures FamilyOk(t[i := t[i].(pid := 0, parent := None, killed := false, state := UNUSED)], nextpid, init, forking,
                     exited, reaped + [t[i].pid], grave)
  {
    ZombiesAfterReap(t, nextpid, exited, reaped, grave, i);
    hide ZombiesOk;
    var u: Table := t[i := t[i].(pid := 0, parent := None, killed := false, state := UNUSED)];
    forall k: nat | k < NPROC
      ensures ParentOk(u, init, k)
    {
      assert ParentOk(t, init, k);
    }
  }

  lemma ZombiesAfterReap(t: Table, nextpid: nat, exited: set<nat>, reaped: seq<nat>, grave: map<nat, nat>, i: nat)
    requires PidsOk(t, nextpid) && ZombiesOk(t, nextpid, exited, reaped, grave) && i < NPROC && t[i].state == ZOMBIE
    ensures ZombiesOk(t[i := t[i].(pid := 0, parent := None, killed := false, state := UNUSED)], nextpid, exited,
              reaped + [t[i].pid], grave)
  {
  }

  // ---------- the priority scheduler ----------

  lemma PickIsUnique(t: Table, p: nat, q: nat)
    requires IsPick(t, p) && IsPick(t, q)
    ensures p == q
  {
    assert Precedes(t, p, q) && Precedes(t, q, p);
  }

  /** Process `p` has run until the timer made it yield `n` times, and nothing else has happened. */
  function AfterYields(t: Table, p: nat, n: nat): Table
    requires p < NPROC
    decreases n
  {
    if n == 0 then t
    else
      var u := AfterYields(t, p, n - 1);
      u[p := u[p].(state := RUNNABLE, priority := Raised(u[p].priority))]
  }

  /** However often the timer interrupts it, the process that was picked is picked again: on one CPU a process of larger
      priority number or, at equal numbers, of a higher slot waits for as long as the picked one only yields. */
  lemma {:induction false} YieldsNeverChangeThePick(t: Table, p: nat, n: nat)
    requires IsPick(t, p)
    ensures IsPick(AfterYields(t, p, n), p) && AfterYields(t, p, n)[p].priority <= t[p].priority
    ensures forall q :: 0 <= q < NPROC && q != p ==> AfterYields(t, p, n)[q] == t[q] && !IsPick(AfterYields(t, p, n), q)
    decreases n
  {
    if n > 0 {
      YieldsNeverChangeThePick(t, p, n - 1);
      var u, v := AfterYields(t, p, n - 1), AfterYields(t, p, n);
      forall q | 0 <= q < NPROC && v[q].state == RUNNABLE
        ensures Precedes(v, p, q)
      {
        assert Precedes(u, p, q);
      }
    }
    forall q | 0 <= q < NPROC && q != p
      ensures !IsPick(AfterYields(t, p, n), q)
    {
      if IsPick(AfterYields(t, p, n), q) {
        PickIsUnique(AfterYields(t, p, n), p, q);
      }
    }
  }

  /** The table after `n` rounds of aging. */
  ghost function Aged(t: Table, n: nat): (r: Table)
    decreases n
  {
    if n == 0 then t
    else
      var u := Aged(t, n - 1);
      seq(NPROC, i requires 0 <= i < NPROC =>
        if u[i].state == RUNNABLE then u[i].(priority := Raised(u[i].priority)) else u[i])
  }

  /** Aging takes one off a number in each round and stops at 0: ten rounds bring any process to the front. */
  lemma {:induction false} AgingReachesTheFront(t: Table, n: nat, i: nat)
    requires i < NPROC && t[i].state == RUNNABLE && 0 <= t[i].priority
    ensures Aged(t, n)[i] == t[i].(priority := if n < t[i].priority then t[i].priority - n else 0)
    ensures PrioritiesOk(t) && n >= 10 ==> Aged(t, n)[i].priority == 0
    decreases n
  {
    if n > 0 {
      AgingReachesTheFront(t, n - 1, i);
    }
  }

  // ---------- the round-robin scheduler it replaces ----------

  /** The loops of the original scheduler on one CPU, entered with the scan at slot `start`, until slot `q` is
      dispatched. `runnable(k, i)` says whether slot `i` is RUNNABLE when the scan makes its `k`-th step; in between,
      processes may change state at will. A process that stays RUNNABLE waits for at most NPROC - 1 others, each in a
      slot of its own: those that are RUNNABLE when the scan gets to them. */
  method RoundRobin(start: nat, q: nat, runnable: (nat, nat) -> bool) returns (dispatched: seq<nat>)
    requires start < NPROC && q < NPROC && forall k: nat :: runnable(k, q)
    ensures |dispatched| <= NPROC - 1
    ensures forall j :: 0 <= j < |dispatched| ==> dispatched[j] < NPROC && dispatched[j] != q
    ensures forall i, j :: 0 <= i < j < |dispatched| ==> dispatched[i] != dispatched[j]
    ensures forall k: nat :: k < Distance(start, q) ==>
              (runnable(k, ScanSlot(start, k)) <==> ScanSlot(start, k) in dispatched)
  {
    dispatched := [];
    var p := start;
    var k: nat := 0;
    ghost var distance := Distance(start, q);
    while true
      invariant p < NPROC && k <= distance
      invariant (p + distance - k) % NPROC == q && p == ScanSlot(start, k)
      invariant |dispatched| <= k
      invariant forall j :: 0 <= j < |dispatched| ==> dispatched[j] < NPROC && Visited(start, k, dispatched[j])
      invariant forall i, j :: 0 <= i < j < |dispatched| ==> dispatched[i] != dispatched[j]
      invariant forall j: nat :: j < k ==> (runnable(j, ScanSlot(start, j)) <==> ScanSlot(start, j) in dispatched)
      decreases distance - k
    {
      if runnable(k, p) {
        if p == q {
          return;
        }
        dispatched := dispatched + [p];
      }
      p := if p + 1 < NPROC then p + 1 else 0;
      k := k + 1;
    }
  }

  /** The slot the scan that began at `start` looks at in step `k`, and the step in which it gets to slot `q`. */
  function ScanSlot(start: nat, k: nat): nat
    requires start < NPROC && k < NPROC
  {
    if start + k < NPROC then start + k else start + k - NPROC
  }

  function Distance(start: nat, q: nat): (r: nat)
    requires start < NPROC && q < NPROC
    ensures r < NPROC && ScanSlot(start, r) == q
  {
    if start <= q then q - start else q - start + NPROC
  }

  /** The scan that began at `start` has passed slot `i` in its first `k` steps. */
  predicate Visited(start: nat, k: nat, i: nat) {
    if i >= start then i < start + k else i + NPROC < start + k
  }
}
