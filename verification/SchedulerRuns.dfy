/** What every run of the scheduler keeps and guarantees. */
module SchedulerRuns {
  import opened Basics
  import opened SyscallContext
  import opened Scheduler

  // ----- the invariant -----

  ghost predicate NoDup(q: seq<nat>) {
    forall i, j | 0 <= i < j < |q| :: q[i] != q[j]
  }

  /** The queue holds exactly the slots whose process exists and has not exited, once each. */
  ghost predicate QueueExact(k: Kernel) {
    NoDup(k.runnable) && forall s: nat :: s in k.runnable <==> Alive(k.procs, s)
  }

  /** Pids are distinct and no process is its own parent. */
  ghost predicate PidsDistinct(procs: Table) {
    && (forall i, j | 0 <= i < j < |procs| && procs[i].Some? && procs[j].Some? ::
          procs[i].value.pid != procs[j].value.pid)
    && (forall i | 0 <= i < |procs| && procs[i].Some? :: procs[i].value.parent != Some(procs[i].value.pid))
  }

  /** While no reschedule is due, the running slice is younger than SLICE ticks. */
  predicate SliceFresh(k: Kernel) {
    k.lastStarted <= k.ticks && (!k.needResched ==> k.ticks - k.lastStarted < SLICE)
  }

  ghost predicate TableInv(k: Kernel) {
    |k.procs| <= TABLE_SIZE && QueueExact(k) && PidsDistinct(k.procs) && SliceFresh(k)
  }

  predicate FrontIsCurrent(k: Kernel) {
    k.runnable != [] && k.runnable[0] == k.current
  }

  ghost predicate Good(s: State) {
    match s
    case Running(k) => TableInv(k) && FrontIsCurrent(k)
    case Idle(k) => TableInv(k) && k.runnable == []
    case Panicked => true
  }

  /** `process::init` followed by `scheduler::init`. The stack top stored at boot is that of the process before it
      is moved into its box, so `staleTop` and the table's `kstackTop` are unrelated. */
  function Boot(entry: u64, kstackTop: u64, staleTop: u64, ticks: nat): State {
    var init := Process(1, None, None, kstackTop, BootstrapUser(entry, 0x402000, 0x202), 0);
    Running(Kernel([Some(init)] + seq(TABLE_SIZE - 1, _ => None), [0], 0, false, ticks, ticks, staleTop))
  }

  /** At boot there is one process among 32 slots: pid 1, nobody's child, queued and current, to start at its entry
      point on the user stack. */
  lemma BootGood(entry: u64, kstackTop: u64, staleTop: u64, ticks: nat)
    ensures Good(Boot(entry, kstackTop, staleTop, ticks))
    ensures var k := Boot(entry, kstackTop, staleTop, ticks).k;
            && |k.procs| == 32 && k.procs[0].Some? && (forall j | 0 < j < 32 :: k.procs[j] == None)
            && k.runnable == [0] && k.current == 0
            && var p := k.procs[0].value;
               && p.pid == 1 && p.parent == None && p.exitCode == None
               && p.save.userRip == entry && p.save.userRsp == 0x402000 && p.save.userRflags == 0x202
  {
    var k := Boot(entry, kstackTop, staleTop, ticks).k;
    assert forall s: nat :: Alive(k.procs, s) <==> s == 0;
  }

  // ----- picking, rotating, exiting -----

  lemma PickGood(k: Kernel)
    requires TableInv(k)
    ensures PickNext(k) == if k.runnable == [] then Idle(k) else Running(Picked(k))
    ensures Good(PickNext(k))
  {
    if k.runnable != [] {
      assert k.runnable[0] in k.runnable;
    }
  }

  /** From any state at all, invariant or not: the first living process of the queue is picked, those in front of it are
      dropped, and with none alive the kernel idles. */
  lemma PickTakesFirstAlive(k: Kernel, i: nat)
    requires i <= |k.runnable| && forall j | 0 <= j < i :: !Alive(k.procs, k.runnable[j])
    ensures i == |k.runnable| ==> PickNext(k) == Idle(k.(runnable := []))
    ensures i < |k.runnable| && Alive(k.procs, k.runnable[i]) ==>
              var s := PickNext(k);
              && s.Running? && s.k.current == k.runnable[i] && s.k.runnable == k.runnable[i..]
              && s.k.stackTop == k.procs[k.runnable[i]].value.kstackTop
  {
    DropsDead(k.runnable, k.procs, i);
    if i < |k.runnable| && Alive(k.procs, k.runnable[i]) {
      assert DropDead(k.runnable[i..], k.procs) == k.runnable[i..];
    }
  }

  lemma {:induction false} DropsDead(q: seq<nat>, procs: Table, i: nat)
    requires i <= |q| && forall j | 0 <= j < i :: !Alive(procs, q[j])
    ensures DropDead(q, procs) == DropDead(q[i..], procs)
    decreases i
  {
    if i > 0 {
      assert !Alive(procs, q[0]);
      DropsDead(q[1..], procs, i - 1);
      assert q[1..][i - 1..] == q[i..];
    } else {
      assert q[0..] == q;
    }
  }

  lemma RotateKeeps(k: Kernel)
    requires TableInv(k)
    ensures TableInv(Rotate(k.(needResched := false)))
  {
    if k.runnable != [] {
      var q, q' := k.runnable, k.runnable[1..] + [k.runnable[0]];
      forall s: nat ensures s in q' <==> s in q {
        assert q == [q[0]] + q[1..];
      }
    }
  }

  lemma {:induction false} WithoutAbsent(q: seq<nat>, slot: nat)
    requires slot !in q
    ensures Without(q, slot) == q
    decreases |q|
  {
    if q != [] {
      WithoutAbsent(q[1..], slot);
    }
  }

  /** With the current process at the front, `retain` just drops the front. */
  lemma WithoutFront(q: seq<nat>)
    requires q != [] && NoDup(q)
    ensures Without(q, q[0]) == q[1..]
  {
    WithoutAbsent(q[1..], q[0]);
  }

  lemma StoreKeeps(k: Kernel, slot: nat, save: SyscallSaved, rax: u64)
    requires TableInv(k)
    ensures var k' := StoreSaved(k, slot, save, rax);
            && TableInv(k') && k' == k.(procs := k'.procs) && |k'.procs| == |k.procs|
            && forall i: nat | i != slot && i < |k.procs| :: k'.procs[i] == k.procs[i]
  {
    var k' := StoreSaved(k, slot, save, rax);
    assert forall s: nat :: Alive(k'.procs, s) <==> Alive(k.procs, s);
  }

  lemma CompleteGood(k: Kernel, save: SyscallSaved, ret: u64)
    requires TableInv(k) && FrontIsCurrent(k)
    ensures var k1 := StoreSaved(k, k.current, save, ret);
            var k2 := if k1.needResched then Rotate(k1.(needResched := false)) else k1;
            && Good(Complete(k, save, ret))
            && Complete(k, save, ret) == Running(Picked(k2))
  {
    hide TableInv, QueueExact, PickNext;
    StoreKeeps(k, k.current, save, ret);
    var k1 := StoreSaved(k, k.current, save, ret);
    if k1.needResched {
      RotateKeeps(k1);
      PickGood(Rotate(k1.(needResched := false)));
    } else {
      PickGood(k1);
    }
  }

  lemma ExitGood(k: Kernel, code: int)
    requires TableInv(k) && FrontIsCurrent(k)
    ensures Good(ExitCurrent(k, code))
    ensures var k1 := MarkExited(k, code).(runnable := k.runnable[1..], needResched := true);
            ExitCurrent(k, code) == if k.runnable[1..] == [] then Idle(k1) else Running(Picked(k1))
  {
    hide PickNext;
    CurrentAlive(k);
    WithoutFront(k.runnable);
    var k2 := MarkExited(k, code).(runnable := k.runnable[1..], needResched := true);
    assert forall s: nat :: Alive(k2.procs, s) <==> Alive(k.procs, s) && s != k.current;
    DropFront(k.runnable);
    PickGood(k2);
  }

  lemma DropFront(q: seq<nat>)
    requires q != [] && NoDup(q)
    ensures NoDup(q[1..]) && forall s :: s in q[1..] <==> s in q && s != q[0]
  {
    assert q == [q[0]] + q[1..];
  }

  // ----- fork and wait -----

  /** The pids of a table. */
  ghost function Pids(procs: Table): set<nat> {
    set j | 0 <= j < |procs| && procs[j].Some? :: procs[j].value.pid as nat
  }

  lemma {:induction false} PidsBounded(procs: Table)
    ensures |Pids(procs)| <= |procs|
    decreases |procs|
  {
    if procs != [] {
      var rest, last := procs[..|procs| - 1], procs[|procs| - 1];
      PidsBounded(rest);
      var extra: set<nat> := if last.Some? then {last.value.pid} else {};
      assert Pids(procs) == Pids(rest) + extra by {
        assert forall j | 0 <= j < |rest| :: rest[j] == procs[j];
      }
      assert |Pids(rest) + extra| <= |Pids(rest)| + |extra|;
    }
  }

  lemma {:induction false} IntervalSize(lo: nat, n: nat, s: set<nat>)
    requires forall p: nat | lo <= p < lo + n :: p in s
    ensures n <= |s|
    decreases n
  {
    if n > 0 {
      IntervalSize(lo, n - 1, s - {lo + n - 1});
    }
  }

  /** Pigeonhole: a table of at most 32 slots always leaves one of the 1022 candidate pids unused. */
  lemma PidAlwaysFree(procs: Table)
    requires |procs| <= TABLE_SIZE
    ensures FreePid(procs, 2).Some?
  {
    if FreePid(procs, 2) == None {
      forall p: nat | 2 <= p < PID_LIMIT ensures p in Pids(procs) {
        assert !PidUnused(procs, p);
      }
      IntervalSize(2, PID_LIMIT - 2, Pids(procs));
      PidsBounded(procs);
      assert false;
    }
  }

  lemma ForkKeeps(k: Kernel, call: SysCall, pid: u64)
    requires TableInv(k) && FrontIsCurrent(k) && call.Fork? && PidUnused(k.procs, pid) && !TableFull(k.procs)
    ensures var d := ForkChild(k, call, pid);
            && d.Returns? && TableInv(d.k)
            && exists slot :: ForkEffect(k, d.k, slot, Child(k, call, pid))
  {
    assert k.current in k.runnable;
    var child := Child(k, call, pid);
    var (procs, slot) := PlaceChild(k.procs, child);
    var k' := ForkChild(k, call, pid).k;
    assert slot !in k.runnable;
    assert k'.runnable == k.runnable + [slot];
    assert ForkEffect(k, k', slot, child);
    forall s: nat ensures s in k'.runnable <==> Alive(k'.procs, s) {
    }
  }

  /** A fork fills one empty slot, queues it last and asks for a reschedule. */
  ghost predicate ForkEffect(k: Kernel, k': Kernel, slot: nat, child: Process) {
    && !Present(k.procs, slot) && slot < |k'.procs| && |k.procs| <= |k'.procs| && k'.procs[slot] == Some(child)
    && (forall i: nat | i < |k.procs| && i != slot :: k'.procs[i] == k.procs[i])
    && k' == k.(procs := k'.procs, runnable := k.runnable + [slot], needResched := true)
  }

  lemma ReapKeeps(k: Kernel, slot: nat)
    requires TableInv(k) && Zombie(k.procs, slot)
    ensures TableInv(Reap(k, slot))
  {
    var k' := Reap(k, slot);
    assert forall s: nat :: Alive(k'.procs, s) <==> Alive(k.procs, s);
  }

  /** Every dispatched call keeps the invariant and the front of the queue. */
  lemma DispatchKeeps(k: Kernel, call: SysCall)
    requires TableInv(k) && FrontIsCurrent(k)
    ensures var d := Dispatch(k, call);
            && (d.Returns? ==> TableInv(d.k) && FrontIsCurrent(d.k) && d.k.current == k.current)
            && (d.Panics? <==> CanFork(call) && TableFull(k.procs))
  {
    hide QueueExact, PidsDistinct;
    match call
    case Fork(_, _, _) =>
      PidAlwaysFree(k.procs);
      var pid := FreePid(k.procs, 2);
      assert Present(k.procs, k.current) by {
        CurrentAlive(k);
      }
      if CanFork(call) && !TableFull(k.procs) {
        ForkKeeps(k, call, pid.value);
        var d := ForkChild(k, call, pid.value);
        var slot :| ForkEffect(k, d.k, slot, Child(k, call, pid.value));
      }
    case Wait(target, _) =>
      var slot := ReapSlot(k.procs, CurrentPid(k), target, 0);
      if slot.Some? {
        ReapKeeps(k, slot.value);
      }
    case Exec(frame, _) =>
      if frame.Some? {
        StoreKeeps(k, k.current, frame.value, 0);
      }
    case Yield =>
      YieldKeeps(k);
    case _ =>
  }

  lemma CurrentAlive(k: Kernel)
    requires TableInv(k) && FrontIsCurrent(k)
    ensures Alive(k.procs, k.current)
  {
    assert k.current in k.runnable;
  }

  lemma YieldKeeps(k: Kernel)
    requires TableInv(k)
    ensures TableInv(k.(needResched := true))
  {
  }

  lemma StepGood(s: State, ev: Event)
    requires Good(s)
    ensures Good(Step(s, ev))
  {
    hide QueueExact, PidsDistinct, PickNext;
    if ev == Tick {
      if !s.Panicked? {
        TickKeeps(s.k);
      }
    } else if s.Running? {
      DispatchKeeps(s.k, ev.call);
      match Dispatch(s.k, ev.call)
      case Returns(k1, ret) => CompleteGood(k1, Record(ev.user, s.k.stackTop, ev.above), ret);
      case Exits(code) => ExitGood(s.k, code);
      case Panics =>
    }
  }

  lemma TickKeeps(k: Kernel)
    requires TableInv(k)
    ensures TableInv(TimerTick(k))
  {
    assert forall s: nat :: Alive(TimerTick(k).procs, s) <==> Alive(k.procs, s);
  }

  /** At every event boundary of every run from boot: the queue has no duplicates, holds exactly the live slots,
      its front is the running process; pids are distinct, no process is its own parent, and the slice is fresh. */
  lemma {:induction false} GoodOverRuns(s: State, evs: seq<Event>)
    requires Good(s)
    ensures Good(Run(s, evs))
    decreases |evs|
  {
    hide Good, Step;
    if evs != [] {
      StepGood(s, evs[0]);
      GoodOverRuns(Step(s, evs[0]), evs[1..]);
    }
  }

  /** The kernel panics exactly on a fork that finds the table full: the unwraps of the parent slot, of the saved
      record and of the pid search never fail. It idles exactly when no live process is left. */
  lemma PanicAndIdleExactly(k: Kernel, ev: Event)
    requires Good(Running(k))
    ensures Step(Running(k), ev) == Panicked <==>
            ev.Trap? && CanFork(ev.call) && TableFull(k.procs)
    ensures var s := Step(Running(k), ev);
            !s.Panicked? ==> (s.Idle? <==> forall i: nat :: !Alive(s.k.procs, i))
    ensures var s := Step(Running(k), ev); s.Running? ==> Alive(s.k.procs, s.k.current)
  {
    StepGood(Running(k), ev);
    var s := Step(Running(k), ev);
    if ev.Trap? {
      DispatchKeeps(k, ev.call);
    }
    if s.Running? {
      CurrentAlive(s.k);
    }
    if s.Idle? {
      assert forall i: nat :: i !in s.k.runnable;
    }
  }

  // ----- bounded waiting -----

  /** The events that take the running process off the front: a call completing with a reschedule due, or an exit. */
  predicate Switches(k: Kernel, ev: Event) {
    ev.Trap? &&
    match Dispatch(k, ev.call)
    case Returns(k1, _) => k1.needResched
    case Exits(_) => true
    case Panics => false
  }

  function CountSwitches(s: State, evs: seq<Event>): nat
    decreases |evs|
  {
    if evs == [] then 0
    else (if s.Running? && Switches(s.k, evs[0]) then 1 else 0) + CountSwitches(Step(s, evs[0]), evs[1..])
  }

  /** The queue after one event, as far as waiting processes are concerned. */
  lemma QueueAfter(k: Kernel, ev: Event, j: nat)
    requires Good(Running(k)) && j < |k.runnable| && !Step(Running(k), ev).Panicked?
    requires Switches(k, ev) ==> j > 0
    ensures var s := Step(Running(k), ev);
            var j' := if Switches(k, ev) then j - 1 else j;
            s.Running? && j' < |s.k.runnable| && s.k.runnable[j'] == k.runnable[j]
  {
    hide TableInv, QueueExact, PidsDistinct, PickNext;
    if ev.Trap? {
      DispatchKeeps(k, ev.call);
      match Dispatch(k, ev.call)
      case Returns(k1, ret) =>
        QueueExtends(k, ev.call);
        CompleteGood(k1, Record(ev.user, k.stackTop, ev.above), ret);
      case Exits(code) => ExitGood(k, code);
    }
  }

  /** Dispatching only ever appends to the queue, and only in a fork. */
  lemma QueueExtends(k: Kernel, call: SysCall)
    requires TableInv(k) && FrontIsCurrent(k) && Dispatch(k, call).Returns?
    ensures k.runnable <= Dispatch(k, call).k.runnable
  {
  }

  /** A process waiting at index j of the queue moves up by exactly one place with each switch and by nothing else,
      so it runs after exactly j switches, whatever forks, waits, ticks and other calls come in between. */
  lemma {:induction false} BoundedWait(s: State, evs: seq<Event>, j: nat)
    requires Good(s) && s.Running? && j < |s.k.runnable|
    requires CountSwitches(s, evs) <= j && !Run(s, evs).Panicked?
    ensures var n := CountSwitches(s, evs);
            var s' := Run(s, evs);
            && s'.Running? && j - n < |s'.k.runnable| && s'.k.runnable[j - n] == s.k.runnable[j]
            && (s'.k.current == s.k.runnable[j] <==> n == j)
    decreases |evs|
  {
    hide Step, Switches, TableInv, QueueExact;
    GoodOverRuns(s, evs);
    if evs == [] {
      FrontOnlyOnce(s.k, j);
    } else {
      var s1 := Step(s, evs[0]);
      PanicStays(s1, evs[1..]);
      QueueAfter(s.k, evs[0], j);
      StepGood(s, evs[0]);
      BoundedWait(s1, evs[1..], if Switches(s.k, evs[0]) then j - 1 else j);
    }
  }

  lemma FrontOnlyOnce(k: Kernel, j: nat)
    requires Good(Running(k)) && j < |k.runnable|
    ensures k.current == k.runnable[j] <==> j == 0
  {
  }

  lemma {:induction false} PanicStays(s: State, evs: seq<Event>)
    ensures s.Panicked? ==> Run(s, evs).Panicked?
    decreases |evs|
  {
    if evs != [] && s.Panicked? {
      PanicStays(s, evs[1..]);
    }
  }

  // ----- time slices -----

  function CountTicks(evs: seq<Event>): nat {
    if evs == [] then 0 else (if evs[0] == Tick then 1 else 0) + CountTicks(evs[1..])
  }

  /** The clock counts the timer interrupts of the run, idle ones included, and moves for nothing else. */
  lemma {:induction false} TicksCounted(s: State, evs: seq<Event>)
    requires !Run(s, evs).Panicked?
    ensures !s.Panicked? && Run(s, evs).k.ticks == s.k.ticks + CountTicks(evs)
    decreases |evs|
  {
    hide Step;
    PanicStays(s, evs);
    if evs != [] {
      PanicStays(Step(s, evs[0]), evs[1..]);
      TicksStep(s, evs[0]);
      TicksCounted(Step(s, evs[0]), evs[1..]);
    }
  }

  lemma TicksStep(s: State, ev: Event)
    requires !s.Panicked? && !Step(s, ev).Panicked?
    ensures Step(s, ev).k.ticks == s.k.ticks + if ev == Tick then 1 else 0
  {
    hide FreePid, ReapSlot, DropDead, Without, PlaceChild, TableFull;
  }

  /** A call that completes 12 or more ticks after the last rotation always rotates, and the rotation restarts the
      clock. */
  lemma SliceEndsOnTime(k: Kernel, ev: Event)
    requires Good(Running(k)) && ev.Trap? && Dispatch(k, ev.call).Returns?
    requires k.ticks - k.lastStarted >= 12
    ensures Switches(k, ev)
    ensures var s := Step(Running(k), ev); s.Running? && s.k.lastStarted == s.k.ticks && !s.k.needResched
  {
    hide QueueExact, PidsDistinct, PickNext;
    DispatchKeeps(k, ev.call);
    var d := Dispatch(k, ev.call);
    assert d.k.needResched;
    CompleteGood(d.k, Record(ev.user, k.stackTop, ev.above), d.ret);
  }

  /** An event that does not switch leaves the process, its slice and everyone's place in the queue alone. */
  lemma StayStep(k: Kernel, ev: Event)
    requires Good(Running(k)) && !Switches(k, ev) && !Step(Running(k), ev).Panicked?
    ensures var s := Step(Running(k), ev);
            && s.Running? && s.k.current == k.current && s.k.lastStarted == k.lastStarted
            && k.runnable <= s.k.runnable
  {
    hide QueueExact, PidsDistinct, PickNext, ReapSlot, FreePid;
    if ev.Trap? {
      DispatchKeeps(k, ev.call);
      var d := Dispatch(k, ev.call);
      QueueExtends(k, ev.call);
      CompleteGood(d.k, Record(ev.user, k.stackTop, ev.above), d.ret);
    }
  }

  lemma {:induction false} StaysWithoutSwitch(s: State, evs: seq<Event>)
    requires Good(s) && s.Running? && CountSwitches(s, evs) == 0 && !Run(s, evs).Panicked?
    ensures var s' := Run(s, evs);
            && s'.Running? && s'.k.current == s.k.current && s'.k.lastStarted == s.k.lastStarted
            && s.k.runnable <= s'.k.runnable
    decreases |evs|
  {
    hide Step, Switches, TableInv;
    if evs != [] {
      PanicStays(Step(s, evs[0]), evs[1..]);
      StayStep(s.k, evs[0]);
      StepGood(s, evs[0]);
      StaysWithoutSwitch(Step(s, evs[0]), evs[1..]);
    }
  }

  /** Preemption: once 12 timer interrupts have come in since the process got its slice, whatever else it did in
      between, its next call that returns sends it to the back of the queue. The process that waited right behind it
      runs next, with a slice of its own that starts then. */
  lemma PreemptedAfterTwelveTicks(s: State, evs: seq<Event>, ev: Event)
    requires Good(s) && s.Running? && s.k.lastStarted == s.k.ticks
    requires CountSwitches(s, evs) == 0 && CountTicks(evs) >= 12 && !Run(s, evs).Panicked?
    requires ev.Trap? && Dispatch(Run(s, evs).k, ev.call).Returns?
    ensures Run(s, evs).Running? && Switches(Run(s, evs).k, ev)
    ensures var s' := Step(Run(s, evs), ev);
            && s'.Running? && s'.k.lastStarted == s'.k.ticks && !s'.k.needResched
            && (|s.k.runnable| > 1 ==> s'.k.current == s.k.runnable[1] != s.k.current)
            && s'.k.runnable[|s'.k.runnable| - 1] == s.k.current
  {
    hide Step, Switches, TableInv;
    var s1 := Run(s, evs);
    TicksCounted(s, evs);
    GoodOverRuns(s, evs);
    StaysWithoutSwitch(s, evs);
    SliceEndsOnTime(s1.k, ev);
    StepGood(s1, ev);
    if |s.k.runnable| > 1 {
      QueueAfter(s1.k, ev, 1);
      FrontOnlyOnce(s.k, 1);
    }
    RotatesToBack(s1.k, ev);
  }

  /** A call that returns with a reschedule due puts the caller last. */
  lemma RotatesToBack(k: Kernel, ev: Event)
    requires Good(Running(k)) && ev.Trap? && Dispatch(k, ev.call).Returns? && Switches(k, ev)
    ensures var s := Step(Running(k), ev);
            && s.Running? && s.k.runnable != []
            && s.k.runnable == Dispatch(k, ev.call).k.runnable[1..] + [k.current]
  {
    hide QueueExact, PidsDistinct, PickNext, ReapSlot, FreePid;
    DispatchKeeps(k, ev.call);
    var d := Dispatch(k, ev.call);
    CompleteGood(d.k, Record(ev.user, k.stackTop, ev.above), d.ret);
  }

  /** Neither yields, forks nor exits. */
  predicate Quiet(ev: Event) {
    ev.Trap? ==> ev.call.Wait? || ev.call.Exec? || ev.call.Other?
  }

  /** Nobody is preempted early: with no reschedule due, a run of ticks and quiet calls that stays below 12 ticks
      since the slice began switches nothing, and the same process is still at the front. */
  lemma {:induction false} NoEarlySwitch(s: State, evs: seq<Event>)
    requires Good(s) && s.Running? && !s.k.needResched && forall ev | ev in evs :: Quiet(ev)
    requires s.k.ticks + CountTicks(evs) < s.k.lastStarted + 12
    ensures var s' := Run(s, evs);
            && CountSwitches(s, evs) == 0 && s'.Running? && !s'.k.needResched
            && s'.k.current == s.k.current && s'.k.runnable == s.k.runnable && s'.k.lastStarted == s.k.lastStarted
    decreases |evs|
  {
    hide TableInv, Step, Switches;
    if evs != [] {
      var s1 := Step(s, evs[0]);
      assert Quiet(evs[0]);
      StepGood(s, evs[0]);
      QuietStep(s.k, evs[0]);
      TicksStep(s, evs[0]);
      NoEarlySwitch(s1, evs[1..]);
    }
  }

  lemma QuietStep(k: Kernel, ev: Event)
    requires Good(Running(k)) && !k.needResched && Quiet(ev)
    ensures var s1 := Step(Running(k), ev);
            && s1.Running? && !Switches(k, ev)
            && (s1.k.ticks - k.lastStarted < SLICE ==> !s1.k.needResched)
            && s1.k.current == k.current && s1.k.runnable == k.runnable && s1.k.lastStarted == k.lastStarted
  {
    hide TableInv, PickNext, ReapSlot;
    if ev.Trap? {
      DispatchKeeps(k, ev.call);
      var d := Dispatch(k, ev.call);
      CompleteGood(d.k, Record(ev.user, k.stackTop, ev.above), d.ret);
    }
  }

  /** So for a process that neither yields, forks nor exits the slice is 12 ticks to the tick: of a run in which it
      has kept the processor since its slice began, the next call gives way exactly when 12 interrupts have come. */
  lemma SliceIsTwelveTicks(s: State, evs: seq<Event>, ev: Event)
    requires Good(s) && s.Running? && !s.k.needResched && s.k.lastStarted == s.k.ticks
    requires CountSwitches(s, evs) == 0 && forall e | e in evs + [ev] :: Quiet(e)
    requires ev.Trap? && !Run(s, evs).Panicked?
    ensures Run(s, evs).Running?
    ensures Switches(Run(s, evs).k, ev) <==> CountTicks(evs) >= 12
  {
    hide Step, Switches, TableInv;
    GoodOverRuns(s, evs);
    StaysWithoutSwitch(s, evs);
    assert Quiet(ev);
    assert forall e | e in evs :: e in evs + [ev];
    if CountTicks(evs) >= 12 {
      QuietReturns(Run(s, evs).k, ev.call);
      PreemptedAfterTwelveTicks(s, evs, ev);
    } else {
      NoEarlySwitch(s, evs);
      QuietStep(Run(s, evs).k, ev);
    }
  }

  lemma QuietReturns(k: Kernel, call: SysCall)
    requires call.Wait? || call.Exec? || call.Other?
    ensures Dispatch(k, call).Returns?
  {
  }

  lemma {:induction false} TicksLeave(s: State, ticks: seq<Event>)
    requires s.Running? && forall e | e in ticks :: e == Tick
    ensures var s' := Run(s, ticks);
            && s'.Running? && s'.k == s.k.(ticks := s'.k.ticks, needResched := s'.k.needResched)
            && (s.k.needResched ==> s'.k.needResched)
    decreases |ticks|
  {
    if ticks != [] {
      assert ticks[0] in ticks && forall e | e in ticks[1..] :: e in ticks;
      TicksLeave(Step(s, ticks[0]), ticks[1..]);
    }
  }

  /** Only a rotation starts a slice. The process that an exit lets run has none: the clock still counts from the slice
      of whoever exited and a reschedule is due, so its first call that returns sends it to the back, however few timer
      interrupts have come, and whoever waited behind it runs with a fresh slice. */
  lemma NoSliceAfterExit(k: Kernel, exit: Event, ticks: seq<Event>, ev: Event)
    requires Good(Running(k)) && exit.Trap? && exit.call.Exit? && |k.runnable| > 1 && forall e | e in ticks :: e == Tick
    requires var s := Run(Step(Running(k), exit), ticks);
             ev.Trap? && (s.Running? ==> Dispatch(s.k, ev.call).Returns?)
    ensures var s := Run(Step(Running(k), exit), ticks);
            && s.Running? && s.k.current == k.runnable[1] && s.k.lastStarted == k.lastStarted && s.k.needResched
            && Switches(s.k, ev)
    ensures var s' := Step(Run(Step(Running(k), exit), ticks), ev);
            && s'.Running? && s'.k.lastStarted == s'.k.ticks && !s'.k.needResched
            && s'.k.runnable != [] && s'.k.runnable[|s'.k.runnable| - 1] == k.runnable[1]
            && (|k.runnable| > 2 ==> s'.k.current == k.runnable[2])
  {
    hide TableInv, PickNext, ReapSlot, FreePid;
    ExitGood(k, exit.call.code);
    var s1 := Step(Running(k), exit);
    var s := Run(s1, ticks);
    TicksLeave(s1, ticks);
    StepGood(Running(k), exit);
    GoodOverRuns(s1, ticks);
    DueSwitches(s.k, ev);
    RotatesToBack(s.k, ev);
    StepGood(s, ev);
    if |k.runnable| > 2 {
      QueueAfter(s.k, ev, 1);
    }
  }

  /** A reschedule that is due stays due through any call, and the rotation restarts the clock. */
  lemma DueSwitches(k: Kernel, ev: Event)
    requires Good(Running(k)) && k.needResched && ev.Trap? && Dispatch(k, ev.call).Returns?
    ensures Switches(k, ev)
    ensures var s := Step(Running(k), ev); s.Running? && s.k.lastStarted == s.k.ticks && !s.k.needResched
  {
    hide QueueExact, PidsDistinct, PickNext;
    DispatchKeeps(k, ev.call);
    var d := Dispatch(k, ev.call);
    assert d.k.needResched;
    CompleteGood(d.k, Record(ev.user, k.stackTop, ev.above), d.ret);
  }

  // ----- the system call context, over whole runs -----

  /** No event of another process touches the table entry of a live process that is not running. */
  lemma OthersKeepEntry(k: Kernel, ev: Event, i: nat)
    requires Good(Running(k)) && Alive(k.procs, i) && i != k.current
    ensures var s := Step(Running(k), ev);
            !s.Panicked? ==> Alive(s.k.procs, i) && s.k.procs[i] == k.procs[i]
  {
    hide QueueExact, PidsDistinct, PickNext;
    if ev.Trap? {
      DispatchKeeps(k, ev.call);
      match Dispatch(k, ev.call)
      case Returns(k1, ret) =>
        DispatchKeepsEntry(k, ev.call, i);
        CompleteGood(k1, Record(ev.user, k.stackTop, ev.above), ret);
      case Exits(code) => ExitGood(k, code);
      case Panics =>
    }
  }

  lemma DispatchKeepsEntry(k: Kernel, call: SysCall, i: nat)
    requires TableInv(k) && FrontIsCurrent(k) && Alive(k.procs, i) && i != k.current && Dispatch(k, call).Returns?
    ensures var k1 := Dispatch(k, call).k;
            Alive(k1.procs, i) && k1.procs[i] == k.procs[i] && k1.current == k.current
  {
  }

  /** Process i is not scheduled again before the last event of the run. */
  predicate Away(s: State, evs: seq<Event>, i: nat)
    decreases |evs|
  {
    evs != [] ==> s.Running? && s.k.current != i && Away(Step(s, evs[0]), evs[1..], i)
  }

  lemma {:induction false} EntrySurvives(s: State, evs: seq<Event>, i: nat)
    requires Good(s) && s.Running? && Alive(s.k.procs, i) && Away(s, evs, i)
    ensures var s' := Run(s, evs);
            !s'.Panicked? ==> Alive(s'.k.procs, i) && s'.k.procs[i] == s.k.procs[i]
    decreases |evs|
  {
    hide Step, TableInv;
    if evs != [] {
      var s1 := Step(s, evs[0]);
      OthersKeepEntry(s.k, evs[0], i);
      StepGood(s, evs[0]);
      if s1.Running? {
        EntrySurvives(s1, evs[1..], i);
      } else if s1.Panicked? {
        PanicStays(s1, evs[1..]);
      } else {
        assert evs[1..] == [];
      }
    }
  }

  lemma CompleteStores(k: Kernel, save: SyscallSaved, ret: u64)
    requires TableInv(k) && FrontIsCurrent(k)
    ensures var s := Complete(k, save, ret);
            && s.Running? && Alive(s.k.procs, k.current)
            && s.k.procs[k.current] == Some(k.procs[k.current].value.(save := save, pendingRax := ret))
  {
    CurrentAlive(k);
    CompleteGood(k, save, ret);
  }

  /** For every call of the running process except exit, and whatever the other processes do until it is picked
      again, it resumes with the rip, rsp, rflags, rbx, rbp, r12 and r13 it entered with and its own return value;
      r14 holds the stack top the call entered on and r15 zero. This covers fork's parent, and exec: the frame exec
      installs is overwritten by the tail of the same call. */
  lemma ContextSurvives(k: Kernel, user: UserRegs, above: u64, call: SysCall, evs: seq<Event>)
    requires Good(Running(k)) && Dispatch(k, call).Returns?
    requires Away(Step(Running(k), Trap(user, above, call)), evs, k.current)
    ensures var s := Run(Step(Running(k), Trap(user, above, call)), evs);
            s.Running? && s.k.current == k.current ==>
              && Present(s.k.procs, s.k.current)
              && ResumedUser(s.k) == user.(rax := Dispatch(k, call).ret, r14 := k.stackTop, r15 := 0)
  {
    hide QueueExact, PidsDistinct, PickNext, Complete;
    var ev := Trap(user, above, call);
    var d := Dispatch(k, call);
    var s1 := Step(Running(k), ev);
    DispatchKeeps(k, call);
    StepGood(Running(k), ev);
    CompleteStores(d.k, Record(user, k.stackTop, above), d.ret);
    EntrySurvives(s1, evs, k.current);
    ShiftsCancel(user, k.stackTop, above, d.ret);
  }

  /** The next call enters on the running process's own kernel stack. */
  predicate OnOwnStack(k: Kernel) {
    Present(k.procs, k.current) && k.stackTop == k.procs[k.current].value.kstackTop
  }

  /** Whatever top boot left behind, every process that the scheduler resumes runs on its own kernel stack. */
  lemma TrapResumesOnOwnStack(k: Kernel, ev: Event)
    requires Good(Running(k)) && ev.Trap? && Step(Running(k), ev).Running?
    ensures OnOwnStack(Step(Running(k), ev).k)
  {
    hide TableInv, PickNext;
    StepGood(Running(k), ev);
    CurrentAlive(Step(Running(k), ev).k);
    DispatchKeeps(k, ev.call);
    match Dispatch(k, ev.call)
    case Returns(k1, ret) => CompleteGood(k1, Record(ev.user, k.stackTop, ev.above), ret);
    case Exits(code) => ExitGood(k, code);
  }

  /** From the first resumption of a run on, every call enters on the caller's own stack, so the r14 it gets back is
      its own kernel stack top. Only the first call after boot can enter on another. */
  lemma {:induction false} OwnStackOverRuns(s: State, evs: seq<Event>)
    requires Good(s) && s.Running? && Run(s, evs).Running?
    requires OnOwnStack(s.k) || exists ev :: ev in evs && ev.Trap?
    ensures OnOwnStack(Run(s, evs).k)
    decreases |evs|
  {
    hide TableInv, Step, OnOwnStack;
    if evs != [] {
      var s1 := Step(s, evs[0]);
      StepGood(s, evs[0]);
      if s1.Running? {
        if evs[0].Trap? {
          TrapResumesOnOwnStack(s.k, evs[0]);
        } else {
          TickStack(s.k);
        }
        OwnStackOverRuns(s1, evs[1..]);
      } else {
        StuckStays(s1, evs[1..]);
        assert false;
      }
    }
  }

  lemma TickStack(k: Kernel)
    ensures OnOwnStack(k) ==> OnOwnStack(Step(Running(k), Tick).k)
  {
  }

  lemma {:induction false} StuckStays(s: State, evs: seq<Event>)
    requires !s.Running?
    ensures !Run(s, evs).Running?
    decreases |evs|
  {
    if evs != [] {
      StuckStays(Step(s, evs[0]), evs[1..]);
    }
  }

  // ----- wait -----

  /** Slot z holds a matching zombie child of the caller and no living child sits in [i, z). */
  predicate Reapable(procs: Table, me: u64, target: int, i: nat, z: nat) {
    && IsChild(procs, z, me) && Zombie(procs, z) && Wanted(procs, z, target)
    && forall j: nat | i <= j < z :: !(IsChild(procs, j, me) && Alive(procs, j))
  }

  /** `wait_reap` succeeds exactly when some matching zombie child has no living child of the caller in a lower
      slot, and then it takes the lowest such slot. */
  lemma {:induction false} WaitFinds(procs: Table, me: u64, target: int, i: nat)
    requires i <= |procs|
    ensures var r := ReapSlot(procs, me, target, i);
            && (r.Some? ==> i <= r.value && Reapable(procs, me, target, i, r.value))
            && (forall z: nat | i <= z && Reapable(procs, me, target, i, z) :: r.Some? && r.value <= z)
    decreases |procs| - i
  {
    if i < |procs| {
      if !(IsChild(procs, i, me) && Alive(procs, i)) {
        WaitFinds(procs, me, target, i + 1);
      }
      forall z: nat | i <= z && Reapable(procs, me, target, i, z)
        ensures ReapSlot(procs, me, target, i).Some? && ReapSlot(procs, me, target, i).value <= z
      {
        if z > i {
          assert Reapable(procs, me, target, i + 1, z);
        }
      }
    }
  }

  /** A wait that ends in an error should leave the child to be waited for again. It does so exactly unless the
      status pointer is bad while a child can be reaped: then the child is gone and the caller gets EFAULT. */
  lemma FailedWaitLosesChild(k: Kernel, target: int, wstatus: StatusPtr)
    ensures var d := Dispatch(k, Wait(target, wstatus));
            var reapable := exists z: nat :: Reapable(k.procs, CurrentPid(k), target, 0, z);
            && d.Returns?
            && (reapable <==> d.k != k)
            && (!reapable ==> d.ret == EAGAIN)
            && (reapable && wstatus == BadStatus ==> d.ret == EFAULT)
            && (reapable && wstatus != BadStatus ==>
                  exists z: nat :: Reapable(k.procs, CurrentPid(k), target, 0, z) && d.ret == k.procs[z].value.pid
                                   && d.k == Reap(k, z))
  {
    WaitFinds(k.procs, CurrentPid(k), target, 0);
    var slot := ReapSlot(k.procs, CurrentPid(k), target, 0);
    if slot.Some? {
      assert Reapable(k.procs, CurrentPid(k), target, 0, slot.value);
      assert Reap(k, slot.value).procs[slot.value] != k.procs[slot.value];
    }
  }

  // ----- each exit status is accounted for once -----

  function ZombieIn(e: Option<Process>): multiset<(u64, int)> {
    if e.Some? && e.value.exitCode.Some? then multiset{(e.value.pid, e.value.exitCode.value)} else multiset{}
  }

  /** Exit statuses still waiting in the table. */
  function Zombies(procs: Table): multiset<(u64, int)> {
    if procs == [] then multiset{} else ZombieIn(procs[0]) + Zombies(procs[1..])
  }

  function ExitedBy(k: Kernel, ev: Event): multiset<(u64, int)> {
    if ev.Trap? && ev.call.Exit? then multiset{(CurrentPid(k), ev.call.code)} else multiset{}
  }

  function ReapedBy(k: Kernel, ev: Event): multiset<(u64, int)> {
    if ev.Trap? && ev.call.Wait? then
      var slot := ReapSlot(k.procs, CurrentPid(k), ev.call.target, 0);
      if slot.Some? then ZombieIn(k.procs[slot.value]) else multiset{}
    else multiset{}
  }

  /** The event is a wait whose status pointer is refused, after the child is gone. */
  predicate BadWait(ev: Event) {
    ev.Trap? && ev.call.Wait? && ev.call.wstatus == BadStatus
  }

  function Exited(s: State, evs: seq<Event>): multiset<(u64, int)>
    decreases |evs|
  {
    if evs == [] then multiset{}
    else (if s.Running? then ExitedBy(s.k, evs[0]) else multiset{}) + Exited(Step(s, evs[0]), evs[1..])
  }

  /** What the waits of a run reaped: with `bad`, by those that end in EFAULT, otherwise by those that report it. */
  function Reaped(s: State, evs: seq<Event>, bad: bool): multiset<(u64, int)>
    decreases |evs|
  {
    if evs == [] then multiset{}
    else (if s.Running? && BadWait(evs[0]) == bad then ReapedBy(s.k, evs[0]) else multiset{})
         + Reaped(Step(s, evs[0]), evs[1..], bad)
  }

  lemma AddLeft(x: multiset<(u64, int)>, a: multiset<(u64, int)>, b: multiset<(u64, int)>,
                c: multiset<(u64, int)>, d: multiset<(u64, int)>)
    requires a + b == c + d
    ensures x + a + b == x + c + d
  {
    assert x + a + b == x + (a + b);
    assert x + c + d == x + (c + d);
  }

  lemma {:induction false} ZombiesUpdate(procs: Table, i: nat, e: Option<Process>)
    requires i < |procs|
    ensures Zombies(procs[i := e]) + ZombieIn(procs[i]) == Zombies(procs) + ZombieIn(e)
    decreases |procs|
  {
    hide ZombieIn;
    if i == 0 {
      assert procs[0 := e][1..] == procs[1..];
    } else {
      ZombiesUpdate(procs[1..], i - 1, e);
      assert procs[i := e][1..] == procs[1..][i - 1 := e];
      AddLeft(ZombieIn(procs[0]), Zombies(procs[1..][i - 1 := e]), ZombieIn(procs[i]),
              Zombies(procs[1..]), ZombieIn(e));
    }
  }

  /** Replacing a live or empty entry by another leaves the zombies alone. */
  lemma ZombiesSame(procs: Table, i: nat, e: Option<Process>)
    requires i < |procs| && !Zombie(procs, i) && (e.Some? ==> e.value.exitCode == None)
    ensures Zombies(procs[i := e]) == Zombies(procs)
  {
    hide Zombies;
    ZombiesUpdate(procs, i, e);
    assert Zombies(procs[i := e]) == Zombies(procs[i := e]) + multiset{};
    assert Zombies(procs) == Zombies(procs) + multiset{};
  }

  lemma {:induction false} ZombiesAppend(procs: Table, e: Option<Process>)
    ensures Zombies(procs + [e]) == Zombies(procs) + ZombieIn(e)
    decreases |procs|
  {
    if procs == [] {
      assert ([] + [e])[1..] == [];
    } else {
      ZombiesAppend(procs[1..], e);
      assert (procs + [e])[1..] == procs[1..] + [e];
    }
  }

  lemma ForkZombies(k: Kernel, call: SysCall, pid: u64)
    requires call.Fork? && ForkChild(k, call, pid).Returns?
    ensures Zombies(ForkChild(k, call, pid).k.procs) == Zombies(k.procs)
  {
    hide Zombies;
    var child := Child(k, call, pid);
    var slot := FirstFree(k.procs, 0);
    if slot < |k.procs| {
      ZombiesSame(k.procs, slot, Some(child));
    } else {
      ZombiesAppend(k.procs, Some(child));
    }
  }

  lemma DispatchZombies(k: Kernel, call: SysCall, user: UserRegs, above: u64)
    requires Alive(k.procs, k.current) && Dispatch(k, call).Returns?
    ensures Zombies(Dispatch(k, call).k.procs) + ReapedBy(k, Trap(user, above, call)) == Zombies(k.procs)
  {
    hide Zombies, ForkChild, FreePid, ReapSlot, ZombieIn;
    match call
    case Fork(_, _, _) =>
      var pid := FreePid(k.procs, 2);
      if pid.Some? && CanFork(call) {
        ForkZombies(k, call, pid.value);
      }
    case Wait(target, _) =>
      var slot := ReapSlot(k.procs, CurrentPid(k), target, 0);
      if slot.Some? {
        ZombiesUpdate(k.procs, slot.value, None);
        NoneIsNoZombie();
      }
    case Exec(frame, _) =>
      if frame.Some? {
        ZombiesSame(k.procs, k.current, Some(k.procs[k.current].value.(save := frame.value, pendingRax := 0)));
      }
    case _ =>
  }

  lemma NoneIsNoZombie()
    ensures ZombieIn(None) == multiset{}
  {
  }

  lemma StepZombies(k: Kernel, ev: Event)
    requires Good(Running(k)) && !Step(Running(k), ev).Panicked?
    ensures Zombies(Step(Running(k), ev).k.procs) + ReapedBy(k, ev) == Zombies(k.procs) + ExitedBy(k, ev)
  {
    hide TableInv, PickNext, Zombies, Complete, ExitCurrent, ReapedBy, ReapSlot, FreePid, ForkChild, Alive, ZombieIn;
    if ev == Tick {
      NoReap(k, ev);
    } else if ev.call.Exit? {
      ExitZombies(k, ev.call.code);
      NoReap(k, ev);
    } else {
      CurrentAlive(k);
      DispatchKeeps(k, ev.call);
      OnlyExitExits(k, ev.call);
      var d := Dispatch(k, ev.call);
      DispatchZombies(k, ev.call, ev.user, ev.above);
      CompleteZombies(d.k, Record(ev.user, k.stackTop, ev.above), d.ret);
    }
  }

  lemma OnlyExitExits(k: Kernel, call: SysCall)
    ensures Dispatch(k, call).Exits? <==> call.Exit?
  {
    hide FreePid, ReapSlot;
  }

  lemma ExitZombies(k: Kernel, code: int)
    requires TableInv(k) && FrontIsCurrent(k)
    ensures Zombies(ExitCurrent(k, code).k.procs) == Zombies(k.procs) + multiset{(CurrentPid(k), code)}
  {
    hide TableInv, PickNext, Zombies, ExitCurrent;
    CurrentAlive(k);
    ExitGood(k, code);
    ZombiesUpdate(k.procs, k.current, Some(k.procs[k.current].value.(exitCode := Some(code))));
  }

  lemma NoReap(k: Kernel, ev: Event)
    requires ev.Trap? ==> !ev.call.Wait?
    ensures ReapedBy(k, ev) == multiset{}
  {
  }

  lemma CompleteZombies(k: Kernel, save: SyscallSaved, ret: u64)
    requires TableInv(k) && FrontIsCurrent(k)
    ensures Complete(k, save, ret).Running? && Zombies(Complete(k, save, ret).k.procs) == Zombies(k.procs)
  {
    hide TableInv, Zombies, Complete;
    CurrentAlive(k);
    CompleteGood(k, save, ret);
    ZombiesSame(k.procs, k.current, Some(k.procs[k.current].value.(save := save, pendingRax := ret)));
  }

  /** Over every run, the statuses of the processes that exited are those that waits have reported, those that waits
      with a bad pointer have dropped, and those still in the table; none is reaped twice. */
  lemma {:induction false} StatusesConserved(s: State, evs: seq<Event>)
    requires Good(s) && !Run(s, evs).Panicked?
    ensures !s.Panicked?
    ensures Zombies(s.k.procs) + Exited(s, evs)
            == Zombies(Run(s, evs).k.procs) + Reaped(s, evs, false) + Reaped(s, evs, true)
    decreases |evs|
  {
    hide Good, Step, Zombies, ExitedBy, ReapedBy;
    PanicStays(s, evs);
    if evs != [] {
      PanicStays(Step(s, evs[0]), evs[1..]);
      StepGood(s, evs[0]);
      StatusesConserved(Step(s, evs[0]), evs[1..]);
      var s1 := Step(s, evs[0]);
      ghost var es := Exited(s1, evs[1..]);
      ghost var good, bad := Reaped(s1, evs[1..], false), Reaped(s1, evs[1..], true);
      if s.Running? {
        StepZombies(s.k, evs[0]);
        ghost var z, z1, zn := Zombies(s.k.procs), Zombies(s1.k.procs), Zombies(Run(s, evs).k.procs);
        ghost var e, r := ExitedBy(s.k, evs[0]), ReapedBy(s.k, evs[0]);
        assert z + (e + es) == (z + e) + es == (z1 + r) + es == (z1 + es) + r == (zn + good + bad) + r;
        assert (zn + good + bad) + r == zn + (r + good) + bad == zn + good + (r + bad);
        if BadWait(evs[0]) {
          assert Reaped(s, evs, false) == multiset{} + good == good && Reaped(s, evs, true) == r + bad;
        } else {
          assert Reaped(s, evs, false) == r + good && Reaped(s, evs, true) == multiset{} + bad == bad;
        }
      } else {
        IdleKeepsTable(s, evs[0]);
        assert Exited(s, evs) == es && Reaped(s, evs, false) == good && Reaped(s, evs, true) == bad;
      }
    }
  }

  lemma IdleKeepsTable(s: State, ev: Event)
    requires s.Idle?
    ensures Step(s, ev).Idle? && Step(s, ev).k.procs == s.k.procs
  {
  }
}
