/** One sleep lock, used by any number of processes: `acquiresleep`, `releasesleep`, and the `sleep` and `wakeup` they
call.

The state machine interleaves the processes line by line. Spin locks are taken by one atomic exchange; `ptable.lock`
is handed to the scheduler when a process goes to sleep and taken again when it is switched back in. Other kernel code
takes `ptable.lock` too and may kill a sleeper, which wakes it early.
 */
module SleepLock {

  datatype Option<+T> = None | Some(value: T)

  /** The line a process is about to execute. */
  datatype PC =
    | Idle
    // acquiresleep
    | AcquireInner | TestLocked | SetLocked | SetPid | ReleaseInner
    // sleep, from acquiresleep
    | SleepTakeTable | SleepDropInner | SleepMark | SleepSwitch | Asleep | Woken | TidyUp | RetakeInner
    // the lock is held
    | Critical
    // releasesleep
    | ReleaseTakeInner | ClearLocked | ClearPid | WakeTakeTable | WakeScan | WakeDropTable | ReleaseDropInner
    // any other code under ptable.lock
    | ElsewhereTakeTable | ElsewhereHoldsTable

  /** The fields of the sleep lock, the owners of its inner spin lock and of `ptable.lock`, and where every process
    is. */
  datatype State = State(locked: bool, pid: Option<nat>, inner: Option<nat>, table: Option<nat>, pc: seq<PC>)

  ghost predicate Initial(s: State) {
    !s.locked && s.pid == None && s.inner == None && s.table == None && forall p :: 0 <= p < |s.pc| ==> s.pc[p] == Idle
  }

  function At(s: State, p: nat, c: PC): State
    requires p < |s.pc|
  {
    s.(pc := s.pc[p := c])
  }

  /** `wakeup1` on the sleep lock's channel. */
  function WakeAll(pc: seq<PC>): (r: seq<PC>)
    ensures |r| == |pc| && forall q :: 0 <= q < |pc| ==> r[q] == if pc[q] == Asleep then Woken else pc[q]
  {
    seq(|pc|, q requires 0 <= q < |pc| => if pc[q] == Asleep then Woken else pc[q])
  }

  /** A line of `acquiresleep`, or of a process with nothing to do. */
  ghost predicate AcquireLine(s: State, t: State, p: nat)
    requires p < |s.pc|
  {
    match s.pc[p]
    case Idle => t == At(s, p, AcquireInner) || t == At(s, p, ElsewhereTakeTable)
    case AcquireInner => s.inner == None && t == At(s.(inner := Some(p)), p, TestLocked)
    case TestLocked => t == At(s, p, if s.locked then SleepTakeTable else SetLocked)
    case SetLocked => t == At(s.(locked := true), p, SetPid)
    case SetPid => t == At(s.(pid := Some(p)), p, ReleaseInner)
    case ReleaseInner => t == At(s.(inner := None), p, Critical)
    case _ => false
  }

  /** A line of `sleep`; a process asleep executes none. */
  ghost predicate SleepLine(s: State, t: State, p: nat)
    requires p < |s.pc|
  {
    match s.pc[p]
    case SleepTakeTable => s.table == None && t == At(s.(table := Some(p)), p, SleepDropInner)
    case SleepDropInner => t == At(s.(inner := None), p, SleepMark)
    case SleepMark => t == At(s, p, SleepSwitch)
    case SleepSwitch => t == At(s.(table := None), p, Asleep)
    case Woken => s.table == None && t == At(s.(table := Some(p)), p, TidyUp)
    case TidyUp => t == At(s.(table := None), p, RetakeInner)
    case RetakeInner => s.inner == None && t == At(s.(inner := Some(p)), p, TestLocked)
    case _ => false
  }

  /** A line of `releasesleep`, or of the code that runs with the lock held. */
  ghost predicate ReleaseLine(s: State, t: State, p: nat)
    requires p < |s.pc|
  {
    match s.pc[p]
    case Critical => t == At(s, p, ReleaseTakeInner) || t == s
    case ReleaseTakeInner => s.inner == None && t == At(s.(inner := Some(p)), p, ClearLocked)
    case ClearLocked => t == At(s.(locked := false), p, ClearPid)
    case ClearPid => t == At(s.(pid := None), p, WakeTakeTable)
    case ReleaseDropInner => t == At(s.(inner := None), p, Idle)
    case _ => false
  }

  /** A line of `wakeup`, from `releasesleep`. */
  ghost predicate WakeLine(s: State, t: State, p: nat)
    requires p < |s.pc|
  {
    match s.pc[p]
    case WakeTakeTable => s.table == None && t == At(s.(table := Some(p)), p, WakeScan)
    case WakeScan => t == At(s.(pc := WakeAll(s.pc)), p, WakeDropTable)
    case WakeDropTable => t == At(s.(table := None), p, ReleaseDropInner)
    case _ => false
  }

  ghost predicate WakesOne(s: State, t: State) {
    exists q :: 0 <= q < |s.pc| && s.pc[q] == Asleep && t == At(s, q, Woken)
  }

  /** Other code under `ptable.lock`, which may wake a sleeper. */
  ghost predicate ElsewhereLine(s: State, t: State, p: nat)
    requires p < |s.pc|
  {
    match s.pc[p]
    case ElsewhereTakeTable => s.table == None && t == At(s.(table := Some(p)), p, ElsewhereHoldsTable)
    case ElsewhereHoldsTable =>
      t == At(s.(table := None), p, Idle) || WakesOne(s, t)
    case _ => false
  }

  /** Process `p` executes one line. */
  ghost predicate Step(s: State, t: State, p: nat) {
    p < |s.pc| && (AcquireLine(s, t, p) || SleepLine(s, t, p) || ReleaseLine(s, t, p) || WakeLine(s, t, p) ||
        ElsewhereLine(s, t, p))
  }

  // ---------- who holds what, line by line ----------

  predicate HoldsInner(c: PC) {
    || c == TestLocked || c == SetLocked || c == SetPid || c == ReleaseInner || c == SleepTakeTable ||
         c == SleepDropInner
    || c == ClearLocked || c == ClearPid || c == WakeTakeTable || c == WakeScan || c == WakeDropTable ||
         c == ReleaseDropInner
  }

  predicate HoldsTable(c: PC) {
    || c == SleepDropInner || c == SleepMark || c == SleepSwitch || c == TidyUp || c == WakeScan || c == WakeDropTable
    || c == ElsewhereHoldsTable
  }

  /** From setting `locked` to clearing it. */
  predicate HoldsLock(c: PC) {
    c == SetPid || c == ReleaseInner || c == Critical || c == ReleaseTakeInner || c == ClearLocked
  }

  /** Committed to sleep, having let go of the inner lock. */
  predicate Sleeping(c: PC) {
    c == SleepMark || c == SleepSwitch || c == Asleep
  }

  /** The lock has been cleared and the sleepers are about to be woken. */
  predicate AboutToWake(c: PC) {
    c == ClearPid || c == WakeTakeTable || c == WakeScan
  }

  /** Each spin lock belongs to the process whose line says so. */
  ghost predicate SpinLocksOk(s: State) {
    && (forall p :: 0 <= p < |s.pc| ==> (HoldsInner(s.pc[p]) <==> s.inner == Some(p)))
    && (forall p :: 0 <= p < |s.pc| ==> (HoldsTable(s.pc[p]) <==> s.table == Some(p)))
    && (s.inner.Some? ==> s.inner.value < |s.pc|)
    && (s.table.Some? ==> s.table.value < |s.pc|)
  }

  /** At most one process holds the sleep lock, and `locked` says whether one does. */
  ghost predicate HolderOk(s: State) {
    && (forall p, q :: 0 <= p < q < |s.pc| ==> !(HoldsLock(s.pc[p]) && HoldsLock(s.pc[q])))
    && (forall p :: 0 <= p < |s.pc| && HoldsLock(s.pc[p]) ==> s.locked)
    && (forall p :: 0 <= p < |s.pc| && (s.pc[p] == SetLocked || s.pc[p] == ClearPid) ==> !s.locked)
    && (s.locked ==> exists p :: 0 <= p < |s.pc| && HoldsLock(s.pc[p]))
  }

  /** The holder's pid is in the lock. */
  ghost predicate PidOk(s: State) {
    forall p :: 0 <= p < |s.pc| && HoldsLock(s.pc[p]) && s.pc[p] != SetPid ==> s.pid == Some(p)
  }

  /** A process goes to sleep only on a locked lock, and the lock is not cleared without the sleepers being woken. */
  ghost predicate SleepersOk(s: State) {
    && (forall p :: 0 <= p < |s.pc| && (s.pc[p] == SleepTakeTable || s.pc[p] == SleepDropInner) ==> s.locked)
    && (forall p :: 0 <= p < |s.pc| && Sleeping(s.pc[p]) && !s.locked ==>
                      s.inner.Some? && s.inner.value < |s.pc| && AboutToWake(s.pc[s.inner.value]))
  }

  ghost predicate Inv(s: State) {
    SpinLocksOk(s) && HolderOk(s) && PidOk(s) && SleepersOk(s)
  }

  lemma InitialInv(s: State)
    requires Initial(s)
    ensures Inv(s)
  {
  }

  // What a line can do to other processes, to the spin locks, to the fields of the lock and to the line itself.

  ghost predicate OthersStay(s: State, t: State, p: nat) {
    && |t.pc| == |s.pc| && p < |s.pc|
    && forall q :: 0 <= q < |s.pc| && q != p ==> t.pc[q] == s.pc[q] || (s.pc[q] == Asleep && t.pc[q] == Woken)
  }

  ghost predicate TakesOrDrops(held: bool, holds: bool, was: Option<nat>, now: Option<nat>, p: nat) {
    if held == holds then now == was else if holds then was == None && now == Some(p) else now == None
  }

  ghost predicate LockedFollowsLine(s: State, t: State, p: nat)
    requires p < |s.pc| == |t.pc|
  {
    var c, d := s.pc[p], t.pc[p];
    && (if c == SetLocked then t.locked && d == SetPid
        else if c == ClearLocked then !t.locked && d == ClearPid
        else t.locked == s.locked && HoldsLock(d) == HoldsLock(c))
    && (d == SetLocked ==> c == TestLocked && !s.locked)
    && (d == ClearPid ==> c == ClearLocked)
  }

  ghost predicate PidFollowsLine(s: State, t: State, p: nat)
    requires p < |s.pc| == |t.pc|
  {
    var c, d := s.pc[p], t.pc[p];
    && (if c == SetPid then t.pid == Some(p) else if c == ClearPid then t.pid == None else t.pid == s.pid)
    && (d == SetPid ==> c == SetLocked)
  }

  ghost predicate SleepFollowsLine(s: State, t: State, p: nat)
    requires p < |s.pc| == |t.pc|
  {
    var c, d := s.pc[p], t.pc[p];
    && (d == SleepTakeTable ==> c == TestLocked && s.locked)
    && (d == SleepDropInner ==> c == SleepTakeTable)
    && (Sleeping(d) ==> c == SleepDropInner || Sleeping(c))
    && (c == WakeScan ==> forall q :: 0 <= q < |t.pc| ==> t.pc[q] != Asleep)
    && (AboutToWake(c) && c != WakeScan ==> AboutToWake(d))
  }

  ghost predicate Shape(s: State, t: State, p: nat) {
    && OthersStay(s, t, p)
    && TakesOrDrops(HoldsInner(s.pc[p]), HoldsInner(t.pc[p]), s.inner, t.inner, p)
    && TakesOrDrops(HoldsTable(s.pc[p]), HoldsTable(t.pc[p]), s.table, t.table, p)
    && LockedFollowsLine(s, t, p) && PidFollowsLine(s, t, p) && SleepFollowsLine(s, t, p)
  }

  lemma AcquireShape(s: State, t: State, p: nat)
    requires p < |s.pc| && AcquireLine(s, t, p)
    ensures Shape(s, t, p)
  {
  }

  lemma SleepShape(s: State, t: State, p: nat)
    requires p < |s.pc| && SleepLine(s, t, p)
    ensures Shape(s, t, p)
  {
  }

  lemma ReleaseShape(s: State, t: State, p: nat)
    requires p < |s.pc| && ReleaseLine(s, t, p)
    ensures Shape(s, t, p)
  {
  }

  lemma WakeShape(s: State, t: State, p: nat)
    requires p < |s.pc| && WakeLine(s, t, p)
    ensures Shape(s, t, p)
  {
  }

  lemma ElsewhereShape(s: State, t: State, p: nat)
    requires p < |s.pc| && ElsewhereLine(s, t, p)
    ensures Shape(s, t, p)
  {
    hide Shape;
    if s.pc[p] == ElsewhereTakeTable {
      ElsewhereTakesShape(s, t, p);
    } else if t == At(s.(table := None), p, Idle) {
      ElsewhereDropsShape(s, t, p);
    } else {
      WakesOneShape(s, t, p);
    }
  }

  lemma ElsewhereTakesShape(s: State, t: State, p: nat)
    requires p < |s.pc| && s.pc[p] == ElsewhereTakeTable
    requires s.table == None && t == At(s.(table := Some(p)), p, ElsewhereHoldsTable)
    ensures Shape(s, t, p)
  {
  }

  lemma ElsewhereDropsShape(s: State, t: State, p: nat)
    requires p < |s.pc| && s.pc[p] == ElsewhereHoldsTable && t == At(s.(table := None), p, Idle)
    ensures Shape(s, t, p)
  {
  }

  lemma WakesOneShape(s: State, t: State, p: nat)
    requires p < |s.pc| && s.pc[p] == ElsewhereHoldsTable && WakesOne(s, t)
    ensures Shape(s, t, p)
  {
    var q :| 0 <= q < |s.pc| && s.pc[q] == Asleep && t == At(s, q, Woken);
    assert t.pc[p] == s.pc[p];
  }

  lemma StepShape(s: State, t: State, p: nat)
    requires Step(s, t, p)
    ensures Shape(s, t, p)
  {
    hide AcquireLine, SleepLine, ReleaseLine, WakeLine, ElsewhereLine, Shape;
    if AcquireLine(s, t, p) {
      AcquireShape(s, t, p);
    } else if SleepLine(s, t, p) {
      SleepShape(s, t, p);
    } else if ReleaseLine(s, t, p) {
      ReleaseShape(s, t, p);
    } else if WakeLine(s, t, p) {
      WakeShape(s, t, p);
    } else {
      ElsewhereShape(s, t, p);
    }
  }

  lemma StepKeepsSpinLocks(s: State, t: State, p: nat)
    requires SpinLocksOk(s) && Step(s, t, p)
    ensures SpinLocksOk(t)
  {
    hide Step, HoldsInner, HoldsTable;
    StepShape(s, t, p);
    hide LockedFollowsLine, PidFollowsLine, SleepFollowsLine;
    WakingTakesNothing();
  }

  lemma WakingTakesNothing()
    ensures !HoldsInner(Asleep) && !HoldsInner(Woken) && !HoldsTable(Asleep) && !HoldsTable(Woken)
  {
  }

  lemma StepKeepsHolder(s: State, t: State, p: nat)
    requires SpinLocksOk(s) && HolderOk(s) && Step(s, t, p)
    ensures HolderOk(t)
  {
    hide Step, PidFollowsLine, SleepFollowsLine, HoldsTable;
    StepShape(s, t, p);
    if s.locked && t.locked {
      var h :| 0 <= h < |s.pc| && HoldsLock(s.pc[h]);
      assert HoldsLock(t.pc[h]);
    } else if t.locked {
      assert HoldsLock(t.pc[p]);
    }
  }

  lemma StepKeepsPid(s: State, t: State, p: nat)
    requires SpinLocksOk(s) && HolderOk(s) && PidOk(s) && Step(s, t, p)
    ensures PidOk(t)
  {
    hide Step, SleepFollowsLine, HoldsInner, HoldsTable;
    StepShape(s, t, p);
  }

  lemma StepKeepsSleepers(s: State, t: State, p: nat)
    requires SpinLocksOk(s) && HolderOk(s) && SleepersOk(s) && Step(s, t, p)
    ensures SleepersOk(t)
  {
    hide Step, PidFollowsLine;
    StepShape(s, t, p);
    forall q | 0 <= q < |t.pc| && Sleeping(t.pc[q]) && !t.locked
      ensures t.inner.Some? && t.inner.value < |t.pc| && AboutToWake(t.pc[t.inner.value])
    {
      if s.pc[p] != ClearLocked {
        assert !s.locked && Sleeping(s.pc[q]);
      }
    }
  }

  lemma StepKeepsInv(s: State, t: State, p: nat)
    requires Inv(s) && Step(s, t, p)
    ensures Inv(t)
  {
    hide SpinLocksOk, HolderOk, PidOk, SleepersOk, Step;
    StepKeepsSpinLocks(s, t, p);
    StepKeepsHolder(s, t, p);
    StepKeepsPid(s, t, p);
    StepKeepsSleepers(s, t, p);
  }

  // ---------- every interleaving ----------

  ghost predicate SomeStep(s: State, t: State) {
    exists p :: 0 <= p < |s.pc| && Step(s, t, p)
  }

  /** A state reached from an initial one by lines of any processes in any order. */
  ghost predicate Reached(run: seq<State>, s: State)
    decreases |run|
  {
    && run != [] && run[|run|-1] == s
    && if |run| == 1 then Initial(s) else SomeStep(run[|run|-2], s) && Reached(run[..|run|-1], run[|run|-2])
  }

  lemma {:induction false} RunKeepsInv(run: seq<State>, s: State)
    requires Reached(run, s)
    ensures Inv(s)
    decreases |run|
  {
    if |run| == 1 {
      InitialInv(s);
    } else {
      var r := run[|run|-2];
      RunKeepsInv(run[..|run|-1], r);
      var p :| 0 <= p < |r.pc| && Step(r, s, p);
      StepKeepsInv(r, s, p);
    }
  }

  /** At most one process holds the sleep lock, in every interleaving. */
  lemma MutualExclusion(run: seq<State>, s: State, p: nat, q: nat)
    requires Reached(run, s) && p < |s.pc| && q < |s.pc| && s.pc[p] == Critical && s.pc[q] == Critical
    ensures p == q
  {
    RunKeepsInv(run, s);
    assert HoldsLock(s.pc[p]) && HoldsLock(s.pc[q]);
  }

  /** No wakeup is lost, in every interleaving: when the sleep lock is unlocked and its inner lock free, nobody is
      asleep on it or on the way to sleep. */
  lemma NoLostWakeup(run: seq<State>, s: State)
    requires Reached(run, s) && !s.locked && s.inner == None
    ensures forall p :: 0 <= p < |s.pc| ==> !Sleeping(s.pc[p]) && s.pc[p] != SleepTakeTable && s.pc[p] != SleepDropInner
  {
    RunKeepsInv(run, s);
  }

  /** `holdingsleep` answers yes to the holder and to nobody else. */
  lemma HoldingSleepIsExact(run: seq<State>, s: State, p: nat)
    requires Reached(run, s) && p < |s.pc| && s.inner == None
    ensures (s.locked && s.pid == Some(p)) <==> HoldsLock(s.pc[p])
  {
    RunKeepsInv(run, s);
    if s.locked {
      var h :| 0 <= h < |s.pc| && HoldsLock(s.pc[h]);
      assert h < p || h == p || p < h;
    }
  }

  // ---------- no deadlock ----------

  predicate CanMove(s: State, p: nat)
    requires p < |s.pc|
  {
    match s.pc[p]
    case Asleep => false
    case AcquireInner => s.inner == None
    case RetakeInner => s.inner == None
    case ReleaseTakeInner => s.inner == None
    case SleepTakeTable => s.table == None
    case Woken => s.table == None
    case WakeTakeTable => s.table == None
    case ElsewhereTakeTable => s.table == None
    case _ => true
  }

  lemma MoverHasStep(s: State, p: nat) returns (t: State)
    requires p < |s.pc| && CanMove(s, p)
    ensures Step(s, t, p)
  {
    t := match s.pc[p]
      case Idle => At(s, p, AcquireInner)
      case AcquireInner => At(s.(inner := Some(p)), p, TestLocked)
      case TestLocked => At(s, p, if s.locked then SleepTakeTable else SetLocked)
      case SetLocked => At(s.(locked := true), p, SetPid)
      case SetPid => At(s.(pid := Some(p)), p, ReleaseInner)
      case ReleaseInner => At(s.(inner := None), p, Critical)
      case SleepTakeTable => At(s.(table := Some(p)), p, SleepDropInner)
      case SleepDropInner => At(s.(inner := None), p, SleepMark)
      case SleepMark => At(s, p, SleepSwitch)
      case SleepSwitch => At(s.(table := None), p, Asleep)
      case Woken => At(s.(table := Some(p)), p, TidyUp)
      case TidyUp => At(s.(table := None), p, RetakeInner)
      case RetakeInner => At(s.(inner := Some(p)), p, TestLocked)
      case ReleaseTakeInner => At(s.(inner := Some(p)), p, ClearLocked)
      case ClearLocked => At(s.(locked := false), p, ClearPid)
      case ClearPid => At(s.(pid := None), p, WakeTakeTable)
      case WakeTakeTable => At(s.(table := Some(p)), p, WakeScan)
      case WakeScan => At(s.(pc := WakeAll(s.pc)), p, WakeDropTable)
      case WakeDropTable => At(s.(table := None), p, ReleaseDropInner)
      case ReleaseDropInner => At(s.(inner := None), p, Idle)
      case ElsewhereTakeTable => At(s.(table := Some(p)), p, ElsewhereHoldsTable)
      case ElsewhereHoldsTable => At(s.(table := None), p, Idle)
      case _ => s;
  }

  /** The two spin locks and the sleep lock never block each other: whoever waits, for a spin lock or asleep, some
      process can go on. */
  lemma NoDeadlock(run: seq<State>, s: State)
    requires Reached(run, s) && s.pc != []
    ensures exists t :: SomeStep(s, t)
  {
    RunKeepsInv(run, s);
    var q := Mover(s, 0);
    var t := MoverHasStep(s, q);
    assert SomeStep(s, t);
  }

  lemma Mover(s: State, p: nat) returns (q: nat)
    requires Inv(s) && p < |s.pc|
    ensures q < |s.pc| && CanMove(s, q)
  {
    if s.table.Some? {
      q := s.table.value;
      assert HoldsTable(s.pc[q]);
    } else if s.inner.Some? {
      q := s.inner.value;
      assert HoldsInner(s.pc[q]);
    } else if s.pc[p] == Asleep {
      assert Sleeping(s.pc[p]);
      q :| 0 <= q < |s.pc| && HoldsLock(s.pc[q]);
    } else {
      q := p;
    }
  }
}
