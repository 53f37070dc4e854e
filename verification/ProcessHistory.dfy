/**
 Facts about a run that the table does not store: which event wrote the record a process resumes with, and which
 process forked which.
 */
module ProcessHistory {
  import opened Basics
  import opened SyscallContext
  import opened Scheduler
  import opened SchedulerRuns

  /** The slot a successful fork fills. */
  function ForkSlot(k: Kernel, ev: Event): Option<nat> {
    if ev.Trap? && CanFork(ev.call) && FreePid(k.procs, 2).Some? && !TableFull(k.procs)
    then Some(FirstFree(k.procs, 0)) else None
  }

  /** Dispatching a call that returns: a fork adds its child at the fork slot, a wait may empty a zombie's slot, and
      every other entry but the caller's is untouched. */
  lemma DispatchEntries(k: Kernel, ev: Event, i: nat)
    requires Good(Running(k)) && ev.Trap? && Dispatch(k, ev.call).Returns? && i != k.current
    requires Present(Dispatch(k, ev.call).k.procs, i)
    ensures var k1 := Dispatch(k, ev.call).k;
            if ForkSlot(k, ev) == Some(i) then
              !Present(k.procs, i) && k1.procs[i] == Some(Child(k, ev.call, FreePid(k.procs, 2).value))
            else Present(k.procs, i) && k1.procs[i] == k.procs[i]
  {
    hide FreePid;
    CurrentAlive(k);
  }

  // ----- where a record comes from -----

  /** What put a record into a table entry: the tail of a call of the process itself, or the fork that made it. */
  datatype Origin =
    | OwnCall(user: UserRegs, entryTop: u64, above: u64, ret: u64)
    | ForkedWith(frame: SyscallSaved)

  function SaveOf(o: Origin): SyscallSaved {
    if o.OwnCall? then Record(o.user, o.entryTop, o.above) else o.frame
  }

  function RaxOf(o: Origin): u64 {
    if o.OwnCall? then o.ret else 0
  }

  /** The record event ev leaves in slot i, if it is one that lasts beyond the event. */
  function WrittenBy(k: Kernel, ev: Event, i: nat): Option<Origin> {
    if ev == Tick then None
    else
      match Dispatch(k, ev.call)
      case Returns(_, ret) =>
        if i == k.current then Some(OwnCall(ev.user, k.stackTop, ev.above, ret))
        else if ForkSlot(k, ev) == Some(i) then Some(ForkedWith(ChildSave(ev.call.saved)))
        else None
      case _ => None
  }

  /** The last such record of a run. */
  function LastWrite(s: State, evs: seq<Event>, i: nat, before: Option<Origin>): Option<Origin>
    decreases |evs|
  {
    if evs == [] || !s.Running? then before
    else
      var w := WrittenBy(s.k, evs[0], i);
      LastWrite(Step(s, evs[0]), evs[1..], i, if w.Some? then w else before)
  }

  /** The entry of slot i holds the record of that origin. */
  predicate Holds(procs: Table, i: nat, o: Origin) {
    Present(procs, i) && procs[i].value.save == SaveOf(o) && procs[i].value.pendingRax == RaxOf(o)
  }

  lemma StepWrites(k: Kernel, ev: Event, i: nat)
    requires Good(Running(k)) && !Step(Running(k), ev).Panicked? && Alive(Step(Running(k), ev).k.procs, i)
    ensures var procs := Step(Running(k), ev).k.procs;
            match WrittenBy(k, ev, i)
            case Some(o) => Holds(procs, i, o)
            case None => Alive(k.procs, i) && procs[i] == k.procs[i]
  {
    hide QueueExact, PidsDistinct, PickNext, ForkSlot, Complete, ExitCurrent;
    CurrentAlive(k);
    if ev.Trap? {
      DispatchKeeps(k, ev.call);
      match Dispatch(k, ev.call)
      case Returns(k1, ret) =>
        var save := Record(ev.user, k.stackTop, ev.above);
        CompleteGood(k1, save, ret);
        CompleteStores(k1, save, ret);
        if i != k.current {
          DispatchEntries(k, ev, i);
        }
      case Exits(code) => ExitGood(k, code);
      case Panics =>
    }
  }

  lemma {:induction false} LastWriteHolds(s: State, evs: seq<Event>, i: nat, before: Option<Origin>)
    requires Good(s) && !Run(s, evs).Panicked? && Alive(Run(s, evs).k.procs, i) && !s.Panicked?
    requires before.Some? && Alive(s.k.procs, i) ==> Holds(s.k.procs, i, before.value)
    ensures var o := LastWrite(s, evs, i, before);
            if o.Some? then Holds(Run(s, evs).k.procs, i, o.value) else before == None && Alive(s.k.procs, i)
    decreases |evs|
  {
    hide Good, Step, WrittenBy, SaveOf, RaxOf;
    if evs != [] {
      var s1 := Step(s, evs[0]);
      StepGood(s, evs[0]);
      PanicStays(s1, evs[1..]);
      if s.Running? {
        var w := WrittenBy(s.k, evs[0], i);
        if Alive(s1.k.procs, i) {
          StepWrites(s.k, evs[0], i);
        }
        LastWriteHolds(s1, evs[1..], i, if w.Some? then w else before);
      } else {
        IdleHasNone(s, evs, i);
        assert false;
      }
    }
  }

  lemma {:induction false} IdleHasNone(s: State, evs: seq<Event>, i: nat)
    requires Good(s) && s.Idle?
    ensures Run(s, evs).Idle? && !Alive(Run(s, evs).k.procs, i)
    decreases |evs|
  {
    if evs != [] {
      StepGood(s, evs[0]);
      IdleKeepsTable(s, evs[0]);
      IdleHasNone(Step(s, evs[0]), evs[1..], i);
    }
  }

  /** The first call after boot is one of slot 0, so from then on slot 0, if it lives, has a record of its own. */
  lemma {:induction false} FirstTrapWrites(s: State, evs: seq<Event>, i: nat)
    requires Good(s) && s.Running? && s.k.runnable == [i] && (exists ev :: ev in evs && ev.Trap?)
    requires !Run(s, evs).Panicked? && Alive(Run(s, evs).k.procs, i)
    ensures LastWrite(s, evs, i, None).Some?
    decreases |evs|
  {
    hide TableInv, Step, WrittenBy, SaveOf, RaxOf;
    var s1 := Step(s, evs[0]);
    StepGood(s, evs[0]);
    PanicStays(s1, evs[1..]);
    if evs[0] == Tick {
      TickKeepsQueue(s.k);
      NoWriteOnTick(s.k, i);
      FirstTrapWrites(s1, evs[1..], i);
    } else {
      OnlyProcessTraps(s.k, evs[0]);
      if s1.Idle? {
        IdleHasNone(s1, evs[1..], i);
        assert false;
      }
      StepWrites(s.k, evs[0], i);
      LastWriteHolds(s1, evs[1..], i, WrittenBy(s.k, evs[0], i));
    }
  }

  lemma TickKeepsQueue(k: Kernel)
    ensures Step(Running(k), Tick).Running? && Step(Running(k), Tick).k.runnable == k.runnable
  {
  }

  lemma NoWriteOnTick(k: Kernel, i: nat)
    ensures WrittenBy(k, Tick, i) == None
  {
  }

  lemma OnlyProcessTraps(k: Kernel, ev: Event)
    requires Good(Running(k)) && |k.runnable| == 1 && ev.Trap? && !Step(Running(k), ev).Panicked?
    ensures var s1 := Step(Running(k), ev);
            s1.Idle? || (Alive(s1.k.procs, k.current) && WrittenBy(k, ev, k.current).Some?)
  {
    hide QueueExact, PidsDistinct, PickNext, Complete, ExitCurrent;
    DispatchKeeps(k, ev.call);
    match Dispatch(k, ev.call)
    case Returns(k1, ret) => CompleteStores(k1, Record(ev.user, k.stackTop, ev.above), ret);
    case Exits(code) => ExitGood(k, code);
  }

  /** In every run from boot with at least one call in it, each live process holds the record of its own last call,
      or the frame its fork gave it if it has made no call yet. Neither the bootstrap record of the first process nor
      the one a successful exec installs is ever resumed. */
  lemma ResumesOwnRecord(entry: u64, kstackTop: u64, staleTop: u64, ticks: nat, evs: seq<Event>, i: nat)
    requires exists ev :: ev in evs && ev.Trap?
    requires var s := Run(Boot(entry, kstackTop, staleTop, ticks), evs); !s.Panicked? && Alive(s.k.procs, i)
    ensures var s0 := Boot(entry, kstackTop, staleTop, ticks);
            var o := LastWrite(s0, evs, i, None);
            o.Some? && Holds(Run(s0, evs).k.procs, i, o.value)
  {
    hide Good, Step, WrittenBy, SaveOf, RaxOf;
    var s0 := Boot(entry, kstackTop, staleTop, ticks);
    BootGood(entry, kstackTop, staleTop, ticks);
    LastWriteHolds(s0, evs, i, None);
    if i == 0 {
      FirstTrapWrites(s0, evs, 0);
    }
  }

  /** So the registers a process resumes with are those of its own last call, with the return value in rax, the entry
      stack top in r14 and zero in r15, or those its fork's frame determines. */
  lemma ResumesOwnRegisters(entry: u64, kstackTop: u64, staleTop: u64, ticks: nat, evs: seq<Event>)
    requires exists ev :: ev in evs && ev.Trap?
    requires Run(Boot(entry, kstackTop, staleTop, ticks), evs).Running?
    ensures var s0 := Boot(entry, kstackTop, staleTop, ticks);
            var k := Run(s0, evs).k;
            Present(k.procs, k.current) &&
            match LastWrite(s0, evs, k.current, None)
            case Some(OwnCall(user, top, _, ret)) => ResumedUser(k) == user.(rax := ret, r14 := top, r15 := 0)
            case Some(ForkedWith(frame)) => ResumedUser(k) == Resumed(frame, 0)
            case None => false
  {
    hide TableInv, Step, WrittenBy, LastWrite;
    var s0 := Boot(entry, kstackTop, staleTop, ticks);
    BootGood(entry, kstackTop, staleTop, ticks);
    GoodOverRuns(s0, evs);
    var k := Run(s0, evs).k;
    CurrentAlive(k);
    ResumesOwnRecord(entry, kstackTop, staleTop, ticks, evs, k.current);
    var o := LastWrite(s0, evs, k.current, None).value;
    if o.OwnCall? {
      ShiftsCancel(o.user, o.entryTop, o.above, o.ret);
    }
  }

  // ----- who forked whom -----

  /** The identity of a process, which unlike its pid is never used again, and that of the process that forked it. */
  datatype Birth = Birth(id: nat, forker: Option<nat>)

  /** The births of the processes in the table, by slot. A fork at time `clock` gives its child that identity. */
  function NextBirths(s: State, ev: Event, b: map<nat, Birth>, clock: nat): map<nat, Birth> {
    if s.Running? && ForkSlot(s.k, ev).Some? && s.k.current in b
    then b[ForkSlot(s.k, ev).value := Birth(clock, Some(b[s.k.current].id))]
    else b
  }

  function Births(s: State, evs: seq<Event>, b: map<nat, Birth>, clock: nat): map<nat, Birth>
    decreases |evs|
  {
    if evs == [] then b
    else Births(Step(s, evs[0]), evs[1..], NextBirths(s, evs[0], b, clock), clock + 1)
  }

  ghost predicate Stamped(procs: Table, b: map<nat, Birth>, clock: nat) {
    && (forall i: nat | Present(procs, i) :: i in b && b[i].id < clock)
    && (forall i: nat | Present(procs, i) && i in b && b[i].forker.Some? :: b[i].forker.value < clock)
    && (forall i: nat, j: nat | Present(procs, i) && Present(procs, j) && i in b && j in b && i != j ::
          b[i].id != b[j].id)
  }

  /** A child whose forker is still in the table names that process's pid as its parent. */
  ghost predicate ParentsTrue(procs: Table, b: map<nat, Birth>) {
    forall i: nat, j: nat | Present(procs, i) && Present(procs, j) && i in b && j in b && b[i].forker == Some(b[j].id)
      :: procs[i].value.parent == Some(procs[j].value.pid)
  }

  /** The processes present after a step were present before with the same pid and parent, except a fork's child. */
  lemma StepKeepsNames(k: Kernel, ev: Event, i: nat)
    requires Good(Running(k)) && !Step(Running(k), ev).Panicked? && Present(Step(Running(k), ev).k.procs, i)
    ensures var p := Step(Running(k), ev).k.procs[i].value;
            if ForkSlot(k, ev) == Some(i) then !Present(k.procs, i) && p.parent == Some(CurrentPid(k))
            else Present(k.procs, i) && p.pid == k.procs[i].value.pid && p.parent == k.procs[i].value.parent
  {
    hide QueueExact, PidsDistinct, PickNext, Complete, ExitCurrent, FreePid;
    CurrentAlive(k);
    if ev.Trap? {
      DispatchKeeps(k, ev.call);
      match Dispatch(k, ev.call)
      case Returns(k1, ret) =>
        CompleteGood(k1, Record(ev.user, k.stackTop, ev.above), ret);
        if i != k.current {
          DispatchEntries(k, ev, i);
        } else {
          CallerKeepsName(k, ev);
        }
      case Exits(code) => ExitGood(k, code);
    }
  }

  lemma CallerKeepsName(k: Kernel, ev: Event)
    requires Good(Running(k)) && ev.Trap? && Dispatch(k, ev.call).Returns?
    ensures var procs := Dispatch(k, ev.call).k.procs;
            && ForkSlot(k, ev) != Some(k.current) && Present(procs, k.current) && Present(k.procs, k.current)
            && procs[k.current].value.pid == k.procs[k.current].value.pid
            && procs[k.current].value.parent == k.procs[k.current].value.parent
  {
    hide FreePid;
    CurrentAlive(k);
  }

  lemma StepKeepsLineage(k: Kernel, ev: Event, b: map<nat, Birth>, clock: nat)
    requires Good(Running(k)) && !Step(Running(k), ev).Panicked?
    requires Stamped(k.procs, b, clock) && ParentsTrue(k.procs, b)
    ensures var procs, b' := Step(Running(k), ev).k.procs, NextBirths(Running(k), ev, b, clock);
            Stamped(procs, b', clock + 1) && ParentsTrue(procs, b')
  {
    hide TableInv, Step, ForkSlot;
    var procs := Step(Running(k), ev).k.procs;
    CurrentAlive(k);
    forall i: nat | Present(procs, i)
      ensures if ForkSlot(k, ev) == Some(i) then
                !Present(k.procs, i) && procs[i].value.parent == Some(CurrentPid(k))
              else
                && Present(k.procs, i) && procs[i].value.pid == k.procs[i].value.pid
                && procs[i].value.parent == k.procs[i].value.parent
    {
      StepKeepsNames(k, ev, i);
    }
  }

  lemma {:induction false} LineageOverRuns(s: State, evs: seq<Event>, b: map<nat, Birth>, clock: nat)
    requires Good(s) && !Run(s, evs).Panicked? && !s.Panicked?
    requires Stamped(s.k.procs, b, clock) && ParentsTrue(s.k.procs, b)
    ensures var procs, b' := Run(s, evs).k.procs, Births(s, evs, b, clock);
            Stamped(procs, b', clock + |evs|) && ParentsTrue(procs, b')
    decreases |evs|
  {
    hide Good, Step, ParentsTrue, NextBirths;
    if evs != [] {
      var s1 := Step(s, evs[0]);
      StepGood(s, evs[0]);
      PanicStays(s1, evs[1..]);
      if s.Running? {
        StepKeepsLineage(s.k, evs[0], b, clock);
      } else {
        IdleKeepsLineage(s, evs[0], b, clock);
      }
      LineageOverRuns(s1, evs[1..], NextBirths(s, evs[0], b, clock), clock + 1);
    }
  }

  lemma IdleKeepsLineage(s: State, ev: Event, b: map<nat, Birth>, clock: nat)
    requires s.Idle? && Stamped(s.k.procs, b, clock) && ParentsTrue(s.k.procs, b)
    ensures var procs, b' := Step(s, ev).k.procs, NextBirths(s, ev, b, clock);
            Step(s, ev).Idle? && Stamped(procs, b', clock + 1) && ParentsTrue(procs, b')
  {
  }

  /** In every run from boot, a process that reaps a child is the process that forked it if and only if the forker is
      still in the table. Otherwise the reaper is a stranger that was given the forker's pid. */
  lemma ReaperIsForker(entry: u64, kstackTop: u64, staleTop: u64, ticks: nat, evs: seq<Event>, target: int)
    requires Run(Boot(entry, kstackTop, staleTop, ticks), evs).Running?
    ensures var s0 := Boot(entry, kstackTop, staleTop, ticks);
            var k := Run(s0, evs).k;
            var b := Births(s0, evs, map[0 := Birth(0, None)], 1);
            var z := ReapSlot(k.procs, CurrentPid(k), target, 0);
            z.Some? ==>
              && z.value in b && k.current in b
              && (b[z.value].forker == Some(b[k.current].id) <==>
                  exists j: nat :: Present(k.procs, j) && j in b && b[z.value].forker == Some(b[j].id))
  {
    hide Step, Births;
    var s0 := Boot(entry, kstackTop, staleTop, ticks);
    var b0 := map[0 := Birth(0, None)];
    BootGood(entry, kstackTop, staleTop, ticks);
    GoodOverRuns(s0, evs);
    LineageOverRuns(s0, evs, b0, 1);
    var k := Run(s0, evs).k;
    var b := Births(s0, evs, b0, 1);
    CurrentAlive(k);
    var z := ReapSlot(k.procs, CurrentPid(k), target, 0);
    if z.Some? {
      forall j: nat | Present(k.procs, j) && j in b && b[z.value].forker == Some(b[j].id) ensures j == k.current {
        assert k.procs[j].value.pid == k.procs[k.current].value.pid;
      }
    }
  }

  /** Whoever forks in this run is the process with pid 1. */
  ghost predicate OnlyFirstForks(s: State, evs: seq<Event>)
    decreases |evs|
  {
    evs != [] ==>
      && (s.Running? && ForkSlot(s.k, evs[0]).Some? ==> CurrentPid(s.k) == 1)
      && OnlyFirstForks(Step(s, evs[0]), evs[1..])
  }

  /** Slot 0 holds the first process, which is nobody's child and forked everyone else. */
  ghost predicate FirstForkedAll(procs: Table, b: map<nat, Birth>) {
    && Present(procs, 0) && procs[0].value.pid == 1 && procs[0].value.parent == None
    && 0 in b && b[0] == Birth(0, None)
    && forall i: nat | Present(procs, i) && i != 0 :: i in b && b[i].forker == Some(0)
  }

  lemma FirstDispatch(k: Kernel, call: SysCall)
    requires Present(k.procs, 0) && k.procs[0].value.parent == None
    ensures Dispatch(k, call).Returns? ==> Present(Dispatch(k, call).k.procs, 0)
  {
    hide FreePid;
  }

  /** The first process is nobody's child, so no wait frees its slot. */
  lemma FirstStays(k: Kernel, ev: Event)
    requires Good(Running(k)) && !Step(Running(k), ev).Panicked?
    requires Present(k.procs, 0) && k.procs[0].value.parent == None
    ensures Present(Step(Running(k), ev).k.procs, 0)
  {
    hide QueueExact, PidsDistinct, PickNext, Complete, ExitCurrent, Dispatch;
    CurrentAlive(k);
    if ev.Trap? {
      DispatchKeeps(k, ev.call);
      FirstDispatch(k, ev.call);
      match Dispatch(k, ev.call)
      case Returns(k1, ret) => CompleteGood(k1, Record(ev.user, k.stackTop, ev.above), ret);
      case Exits(code) => ExitGood(k, code);
    }
  }

  lemma FirstForkedStep(k: Kernel, ev: Event, b: map<nat, Birth>, clock: nat)
    requires Good(Running(k)) && !Step(Running(k), ev).Panicked? && FirstForkedAll(k.procs, b)
    requires ForkSlot(k, ev).Some? ==> CurrentPid(k) == 1
    ensures FirstForkedAll(Step(Running(k), ev).k.procs, NextBirths(Running(k), ev, b, clock))
  {
    hide QueueExact, Step, ForkSlot;
    var procs := Step(Running(k), ev).k.procs;
    CurrentAlive(k);
    FirstStays(k, ev);
    forall i: nat | Present(procs, i)
      ensures if ForkSlot(k, ev) == Some(i) then !Present(k.procs, i)
              else && Present(k.procs, i) && procs[i].value.pid == k.procs[i].value.pid
                   && procs[i].value.parent == k.procs[i].value.parent
    {
      StepKeepsNames(k, ev, i);
    }
    if ForkSlot(k, ev).Some? {
      assert k.procs[0].value.pid == k.procs[k.current].value.pid;
      assert k.current == 0;
    }
  }

  lemma {:induction false} FirstForkedOverRuns(s: State, evs: seq<Event>, b: map<nat, Birth>, clock: nat)
    requires Good(s) && !s.Panicked? && !Run(s, evs).Panicked? && FirstForkedAll(s.k.procs, b) && OnlyFirstForks(s, evs)
    ensures FirstForkedAll(Run(s, evs).k.procs, Births(s, evs, b, clock))
    decreases |evs|
  {
    hide Good, Step, FirstForkedAll, ForkSlot;
    if evs != [] {
      var s1 := Step(s, evs[0]);
      StepGood(s, evs[0]);
      PanicStays(s1, evs[1..]);
      if s.Running? {
        FirstForkedStep(s.k, evs[0], b, clock);
      } else {
        IdleKeepsProcs(s, evs[0]);
      }
      FirstForkedOverRuns(s1, evs[1..], NextBirths(s, evs[0], b, clock), clock + 1);
    }
  }

  lemma IdleKeepsProcs(s: State, ev: Event)
    requires s.Idle?
    ensures Step(s, ev).Idle? && Step(s, ev).k.procs == s.k.procs
  {
  }

  /** In every run from boot in which only pid 1 forks, the reaper is the process that forked the child: pid 1 is never
      given to another. */
  lemma FirstReapsItsOwn(entry: u64, kstackTop: u64, staleTop: u64, ticks: nat, evs: seq<Event>, target: int)
    requires Run(Boot(entry, kstackTop, staleTop, ticks), evs).Running?
    requires OnlyFirstForks(Boot(entry, kstackTop, staleTop, ticks), evs)
    ensures var s0 := Boot(entry, kstackTop, staleTop, ticks);
            var k := Run(s0, evs).k;
            var b := Births(s0, evs, map[0 := Birth(0, None)], 1);
            var z := ReapSlot(k.procs, CurrentPid(k), target, 0);
            z.Some? ==> z.value in b && k.current in b && b[z.value].forker == Some(b[k.current].id)
  {
    hide Step, Births, ReapSlot, OnlyFirstForks;
    var s0 := Boot(entry, kstackTop, staleTop, ticks);
    var b0 := map[0 := Birth(0, None)];
    BootGood(entry, kstackTop, staleTop, ticks);
    FirstForkedOverRuns(s0, evs, b0, 1);
    ReaperIsForker(entry, kstackTop, staleTop, ticks, evs, target);
    var k, b := Run(s0, evs).k, Births(s0, evs, b0, 1);
    var z := ReapSlot(k.procs, CurrentPid(k), target, 0);
    if z.Some? {
      assert Present(k.procs, 0) && b[z.value].forker == Some(b[0].id);
    }
  }

  // ----- a reused pid -----

  /** An entry without its registers. */
  datatype Name = Name(pid: u64, parent: Option<u64>, exited: bool)

  function NameOf(e: Option<Process>): Option<Name> {
    if e == None then None else Some(Name(e.value.pid, e.value.parent, e.value.exitCode.Some?))
  }

  /** A running kernel that uses only the first three slots. */
  predicate At(s: State, n: seq<Option<Name>>, q: seq<nat>, flag: bool) {
    && s.Running? && |n| == 3 && q != [] && s.k.runnable == q && s.k.current == q[0] && s.k.needResched == flag
    && q[0] < 3 && n[q[0]].Some? && |s.k.procs| == TABLE_SIZE
    && forall j: nat | j < TABLE_SIZE :: NameOf(s.k.procs[j]) == if j < 3 then n[j] else None
  }

  predicate Lives(n: seq<Option<Name>>, i: nat) {
    i < |n| && n[i].Some? && !n[i].value.exited
  }

  /** The tail of a call when a reschedule is due. */
  lemma AtTail(k: Kernel, n: seq<Option<Name>>, q: seq<nat>, q': seq<nat>, save: SyscallSaved, ret: u64)
    requires At(Running(k), n, q, true) && q' == q[1..] + [q[0]] && Lives(n, q'[0])
    ensures At(Complete(k, save, ret), n, q', false)
  {
  }

  lemma AtFork(s: State, n: seq<Option<Name>>, q: seq<nat>, flag: bool, ev: Event, slot: nat,
               n': seq<Option<Name>>, q': seq<nat>)
    requires At(s, n, q, flag) && ev.Trap? && CanFork(ev.call) && FreePid(s.k.procs, 2).Some?
    requires slot < 3 && n[slot] == None && (forall j | 0 <= j < slot :: n[j].Some?) && slot !in q
    requires n' == n[slot := Some(Name(FreePid(s.k.procs, 2).value, Some(n[q[0]].value.pid), false))]
    requires q' == q[1..] + [slot, q[0]] && Lives(n', q'[0])
    ensures ForkSlot(s.k, ev) == Some(slot)
    ensures At(Step(s, ev), n', q', false)
  {
    hide FreePid, Complete, FirstFree;
    assert FirstFree(s.k.procs, 0) == slot;
    var d := Dispatch(s.k, ev.call);
    assert d.k.runnable == q + [slot];
    assert At(Running(d.k), n', q + [slot], true);
    AtTail(d.k, n', q + [slot], q', Record(ev.user, s.k.stackTop, ev.above), d.ret);
  }

  lemma AtYield(s: State, n: seq<Option<Name>>, q: seq<nat>, flag: bool, ev: Event, q': seq<nat>)
    requires At(s, n, q, flag) && ev.Trap? && ev.call.Yield? && q' == q[1..] + [q[0]] && Lives(n, q'[0])
    ensures At(Step(s, ev), n, q', false)
  {
    hide Complete;
    AtTail(s.k.(needResched := true), n, q, q', Record(ev.user, s.k.stackTop, ev.above), 0);
  }

  lemma AtExit(s: State, n: seq<Option<Name>>, q: seq<nat>, flag: bool, ev: Event,
               n': seq<Option<Name>>, q': seq<nat>)
    requires At(s, n, q, flag) && ev.Trap? && ev.call.Exit? && NoDup(q)
    requires n' == n[q[0] := Some(n[q[0]].value.(exited := true))] && q' == q[1..] && q' != [] && Lives(n', q'[0])
    ensures At(Step(s, ev), n', q', true)
  {
    WithoutFront(q);
  }

  lemma AtWait(s: State, n: seq<Option<Name>>, q: seq<nat>, ev: Event, z: nat,
               n': seq<Option<Name>>, q': seq<nat>)
    requires At(s, n, q, true) && ev.Trap? && ev.call.Wait? && z < 3 && z != q[0]
    requires ReapSlot(s.k.procs, CurrentPid(s.k), ev.call.target, 0) == Some(z)
    requires n' == n[z := None] && q' == q[1..] + [q[0]] && Lives(n', q'[0])
    ensures At(Step(s, ev), n', q', false)
  {
    hide ReapSlot, Complete;
    var d := Dispatch(s.k, ev.call);
    AtTail(d.k, n', q, q', Record(ev.user, s.k.stackTop, ev.above), d.ret);
  }

  lemma Unfold(s: State, evs: seq<Event>, i: nat, b: map<nat, Birth>, clock: nat)
    requires i < |evs|
    ensures Run(s, evs[i..]) == Run(Step(s, evs[i]), evs[i + 1..])
    ensures Births(s, evs[i..], b, clock)
            == Births(Step(s, evs[i]), evs[i + 1..], NextBirths(s, evs[i], b, clock), clock + 1)
  {
    assert evs[i..][1..] == evs[i + 1..];
  }

  predicate Uses(n: seq<Option<Name>>, pid: u64) {
    exists j | 0 <= j < |n| && n[j].Some? :: n[j].value.pid == pid
  }

  /** The least unused pid of a table that uses the first three slots only. */
  lemma AtPid(s: State, n: seq<Option<Name>>, q: seq<nat>, flag: bool)
    requires At(s, n, q, flag)
    ensures !Uses(n, 2) ==> FreePid(s.k.procs, 2) == Some(2)
    ensures Uses(n, 2) && !Uses(n, 3) ==> FreePid(s.k.procs, 2) == Some(3)
  {
    hide FreePid;
    AtUses(s, n, q, flag, 2);
    AtUses(s, n, q, flag, 3);
    PidFrom(s.k.procs, 2);
    PidFrom(s.k.procs, 3);
  }

  lemma AtUses(s: State, n: seq<Option<Name>>, q: seq<nat>, flag: bool, pid: u64)
    requires At(s, n, q, flag)
    ensures PidUnused(s.k.procs, pid) <==> !Uses(n, pid)
  {
    if Uses(n, pid) {
      var j :| 0 <= j < |n| && n[j].Some? && n[j].value.pid == pid;
      assert NameOf(s.k.procs[j]) == n[j];
    } else {
      forall j | 0 <= j < |s.k.procs| && s.k.procs[j].Some? ensures s.k.procs[j].value.pid != pid {
        assert NameOf(s.k.procs[j]) == if j < 3 then n[j] else None;
      }
    }
  }

  lemma PidFrom(procs: Table, cand: nat)
    requires cand < PID_LIMIT
    ensures FreePid(procs, cand) == if PidUnused(procs, cand) then Some(cand) else FreePid(procs, cand + 1)
  {
  }

  function Named(pid: u64, parent: u64, exited: bool): Option<Name> {
    Some(Name(pid, Some(parent), exited))
  }

  const INIT: Option<Name> := Some(Name(1, None, false))

  /** 1 forks 2, 2 forks 3, 3 and 2 exit, 1 reaps 2 and forks again. */
  function ReuseRun(u: UserRegs, f: SyscallSaved): seq<Event> {
    var fork := Trap(u, 0, Fork(true, f, 8192));
    [fork, fork, Trap(u, 0, Yield), Trap(u, 0, Exit(0)), Trap(u, 0, Exit(0)), Trap(u, 0, Wait(-1, NullStatus)), fork]
  }

  const FIRST: map<nat, Birth> := map[0 := Birth(0, None)]
  const THIRD: map<nat, Birth> := map[0 := Birth(0, None), 1 := Birth(1, Some(0)), 2 := Birth(2, Some(1))]
  const LAST: map<nat, Birth> := map[0 := Birth(0, None), 1 := Birth(7, Some(0)), 2 := Birth(2, Some(1))]

  /** The rest of the run from event i in state s is the rest from event j in state t. */
  ghost predicate Leads(evs: seq<Event>, i: nat, s: State, b: map<nat, Birth>, j: nat, t: State, c: map<nat, Birth>) {
    && i <= j <= |evs|
    && Run(s, evs[i..]) == Run(t, evs[j..])
    && Births(s, evs[i..], b, i + 1) == Births(t, evs[j..], c, j + 1)
  }

  lemma TwoForks(evs: seq<Event>, u: UserRegs, f: SyscallSaved) returns (t: State)
    requires evs == ReuseRun(u, f) && f.userRsp < 0x402000
    ensures Leads(evs, 0, Boot(0, 4096, 4096, 0), FIRST, 2, t, THIRD)
    ensures At(t, [INIT, Named(2, 1, false), Named(3, 2, false)], [0, 2, 1], false)
  {
    hide Step, FreePid, Run, Births, At, FirstFree, ForkSlot;
    var s, n0, n1 := Boot(0, 4096, 4096, 0), [INIT, None, None], [INIT, Named(2, 1, false), None];
    BootAt();
    AtPid(s, n0, [0], false);
    AtFork(s, n0, [0], false, evs[0], 1, n1, [1, 0]);
    var s1 := Step(s, evs[0]);
    AtPid(s1, n1, [1, 0], false);
    AtFork(s1, n1, [1, 0], false, evs[1], 2, [INIT, Named(2, 1, false), Named(3, 2, false)], [0, 2, 1]);
    t := Step(s1, evs[1]);
    AtFront(s, n0, [0], false);
    AtFront(s1, n1, [1, 0], false);
    Unfold(s, evs, 0, FIRST, 1);
    Unfold(s1, evs, 1, map[0 := Birth(0, None), 1 := Birth(1, Some(0))], 2);
  }

  lemma TwoExits(evs: seq<Event>, u: UserRegs, f: SyscallSaved, s: State) returns (t: State)
    requires evs == ReuseRun(u, f) && At(s, [INIT, Named(2, 1, false), Named(3, 2, false)], [0, 2, 1], false)
    ensures Leads(evs, 2, s, THIRD, 5, t, THIRD)
    ensures At(t, [INIT, Named(2, 1, true), Named(3, 2, true)], [0], true)
  {
    hide Step, FreePid, Run, Births, At;
    var n := [INIT, Named(2, 1, false), Named(3, 2, false)];
    AtYield(s, n, [0, 2, 1], false, evs[2], [2, 1, 0]);
    var s1 := Step(s, evs[2]);
    AtExit(s1, n, [2, 1, 0], false, evs[3], [INIT, Named(2, 1, false), Named(3, 2, true)], [1, 0]);
    var s2 := Step(s1, evs[3]);
    AtExit(s2, [INIT, Named(2, 1, false), Named(3, 2, true)], [1, 0], true, evs[4],
           [INIT, Named(2, 1, true), Named(3, 2, true)], [0]);
    t := Step(s2, evs[4]);
    Unfold(s, evs, 2, THIRD, 3);
    Unfold(s1, evs, 3, THIRD, 4);
    Unfold(s2, evs, 4, THIRD, 5);
  }

  lemma ReapAndFork(evs: seq<Event>, u: UserRegs, f: SyscallSaved, s: State) returns (t: State)
    requires f.userRsp < 0x402000
    requires evs == ReuseRun(u, f) && At(s, [INIT, Named(2, 1, true), Named(3, 2, true)], [0], true)
    ensures Leads(evs, 5, s, THIRD, 7, t, LAST)
    ensures At(t, [INIT, Named(2, 1, false), Named(3, 2, true)], [1, 0], false)
  {
    hide Step, FreePid, Run, Births, At, FirstFree, ForkSlot, ReapSlot;
    var n, n1 := [INIT, Named(2, 1, true), Named(3, 2, true)], [INIT, None, Named(3, 2, true)];
    AtFront(s, n, [0], true);
    AtReap(s, n, [0], true, 1);
    AtWait(s, n, [0], evs[5], 1, n1, [0]);
    var s1 := Step(s, evs[5]);
    AtPid(s1, n1, [0], false);
    AtFork(s1, n1, [0], false, evs[6], 1, [INIT, Named(2, 1, false), Named(3, 2, true)], [1, 0]);
    t := Step(s1, evs[6]);
    AtFront(s1, n1, [0], false);
    NoForkSlot(s.k, evs[5]);
    Unfold(s, evs, 5, THIRD, 6);
    Unfold(s1, evs, 6, THIRD, 7);
    assert THIRD[1 := Birth(7, Some(0))] == LAST;
  }

  lemma NoForkSlot(k: Kernel, ev: Event)
    requires ev.Trap? ==> !ev.call.Fork?
    ensures ForkSlot(k, ev) == None
  {
  }

  lemma AtFront(s: State, n: seq<Option<Name>>, q: seq<nat>, flag: bool)
    requires At(s, n, q, flag)
    ensures s.Running? && s.k.current == q[0] && CurrentPid(s.k) == n[q[0]].value.pid
  {
    assert NameOf(s.k.procs[q[0]]) == n[q[0]];
  }

  /** The first two slots hold no child of the caller before z. */
  lemma AtReap(s: State, n: seq<Option<Name>>, q: seq<nat>, flag: bool, z: nat)
    requires At(s, n, q, flag) && 0 < z < 3 && n[z].Some? && n[z].value.exited
    requires n[z].value.parent == Some(n[q[0]].value.pid)
    requires forall j | 0 <= j < z :: n[j].Some? && n[j].value.parent != Some(n[q[0]].value.pid)
    ensures ReapSlot(s.k.procs, n[q[0]].value.pid, -1, 0) == Some(z)
  {
    hide ReapSlot;
    var me := n[q[0]].value.pid;
    WaitFinds(s.k.procs, me, -1, 0);
    assert forall j: nat | j <= z :: NameOf(s.k.procs[j]) == n[j];
    assert Reapable(s.k.procs, me, -1, 0, z);
  }

  lemma BootAt()
    ensures At(Boot(0, 4096, 4096, 0), [INIT, None, None], [0], false)
  {
  }

  /** The second process with pid 2 reaps process 3, which the first one had forked. */
  lemma StrangerReaps(u: UserRegs, f: SyscallSaved)
    requires f.userRsp < 0x402000
    ensures var s0 := Boot(0, 4096, 4096, 0);
            var s := Run(s0, ReuseRun(u, f));
            && s.Running? && s.k.current == 1 && CurrentPid(s.k) == 2 && ReapSlot(s.k.procs, 2, -1, 0) == Some(2)
            && Births(s0, ReuseRun(u, f), FIRST, 1) == LAST && LAST[2].forker != Some(LAST[1].id)
  {
    hide Step, Boot, At, ReapSlot;
    var evs := ReuseRun(u, f);
    var s2 := TwoForks(evs, u, f);
    var s5 := TwoExits(evs, u, f, s2);
    var s7 := ReapAndFork(evs, u, f, s5);
    assert evs[0..] == evs && evs[7..] == [];
    var n := [INIT, Named(2, 1, false), Named(3, 2, true)];
    AtFront(s7, n, [1, 0], false);
    AtReap(s7, n, [1, 0], false, 2);
  }

  // ----- a bad status pointer -----

  /** The first process forks and its child exits with status 3. */
  function ExitRun(u: UserRegs, f: SyscallSaved): seq<Event> {
    [Trap(u, 0, Fork(true, f, 8192)), Trap(u, 0, Exit(3))]
  }

  lemma RunTwo(s: State, a: Event, b: Event)
    ensures Run(s, [a, b]) == Step(Step(s, a), b)
  {
    assert [a, b][1..] == [b] && [b][1..] == [];
    assert Run(Step(s, a), [b]) == Step(Step(s, a), b);
  }

  lemma ForkThenExit(u: UserRegs, f: SyscallSaved)
    requires f.userRsp < 0x402000
    ensures At(Run(Boot(0, 4096, 4096, 0), ExitRun(u, f)), [INIT, Named(2, 1, true), None], [0], true)
  {
    hide Step, FreePid, FirstFree, ForkSlot, At, Run;
    var e0, e1 := Trap(u, 0, Fork(true, f, 8192)), Trap(u, 0, Exit(3));
    var s0, n0, n1 := Boot(0, 4096, 4096, 0), [INIT, None, None], [INIT, Named(2, 1, false), None];
    BootAt();
    AtPid(s0, n0, [0], false);
    AtFork(s0, n0, [0], false, e0, 1, n1, [1, 0]);
    AtExit(Step(s0, e0), n1, [1, 0], false, e1, [INIT, Named(2, 1, true), None], [0]);
    RunTwo(s0, e0, e1);
  }

  /** In the run from boot in which the first process then waits with a bad status pointer, the call returns EFAULT and
      the child, until then waiting to be reaped, is gone from the table. */
  lemma BadStatusLosesChild(u: UserRegs, f: SyscallSaved)
    requires f.userRsp < 0x402000
    ensures var s := Run(Boot(0, 4096, 4096, 0), ExitRun(u, f));
            && s.Running? && s.k.current == 0 && Zombie(s.k.procs, 1)
            && Dispatch(s.k, Wait(-1, BadStatus)) == Returns(Reap(s.k, 1), EFAULT)
  {
    hide Run, Boot, ReapSlot, At, Dispatch;
    var s, n := Run(Boot(0, 4096, 4096, 0), ExitRun(u, f)), [INIT, Named(2, 1, true), None];
    ForkThenExit(u, f);
    AtFront(s, n, [0], true);
    AtReap(s, n, [0], true, 1);
    ReapedZombie(s.k);
  }

  lemma ReapedZombie(k: Kernel)
    requires ReapSlot(k.procs, CurrentPid(k), -1, 0) == Some(1)
    ensures Zombie(k.procs, 1) && Dispatch(k, Wait(-1, BadStatus)) == Returns(Reap(k, 1), EFAULT)
  {
  }
}
