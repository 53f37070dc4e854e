/**
 The process table (src/process.rs), the round-robin run queue (src/scheduler.rs) and the system call tail as one
 step system: timer ticks and system calls of the running process. The theorems hold over every run.
 */
module Scheduler {
  import opened Basics
  import opened SyscallContext
  import ForkStack

  const SLICE: nat := 12
  const TABLE_SIZE: nat := 32
  const PID_LIMIT: nat := 1024

  datatype Process = Process(
    pid: u64, parent: Option<u64>, exitCode: Option<int>, kstackTop: u64, save: SyscallSaved, pendingRax: u64)

  type Table = seq<Option<Process>>

  /** `stackTop` is CURRENT_KSTACK_TOP, the stack the next system call enters on. */
  datatype Kernel = Kernel(
    procs: Table, runnable: seq<nat>, current: nat, needResched: bool, lastStarted: nat, ticks: nat, stackTop: u64)

  predicate Present(procs: Table, slot: nat) {
    slot < |procs| && procs[slot].Some?
  }

  /** `slot_is_alive_runnable` */
  predicate Alive(procs: Table, slot: nat) {
    Present(procs, slot) && procs[slot].value.exitCode == None
  }

  predicate Zombie(procs: Table, slot: nat) {
    Present(procs, slot) && procs[slot].value.exitCode.Some?
  }

  // ----- process table -----

  /** The first free slot at or after i, or the table's length. */
  function FirstFree(procs: Table, i: nat): (r: nat)
    requires i <= |procs|
    ensures i <= r <= |procs|
    ensures r < |procs| ==> procs[r] == None
    ensures forall j | i <= j < r :: procs[j] != None
    decreases |procs| - i
  {
    if i == |procs| || procs[i] == None then i else FirstFree(procs, i + 1)
  }

  predicate TableFull(procs: Table) {
    |procs| >= TABLE_SIZE && forall j | 0 <= j < |procs| :: procs[j] != None
  }

  /** `alloc_slot`, together with the store of the new process into the slot. */
  function PlaceChild(procs: Table, p: Process): (Table, nat)
    requires !TableFull(procs)
  {
    var slot := FirstFree(procs, 0);
    if slot < |procs| then (procs[slot := Some(p)], slot) else (procs + [Some(p)], |procs|)
  }

  predicate PidUnused(procs: Table, pid: nat) {
    forall j | 0 <= j < |procs| && procs[j].Some? :: procs[j].value.pid != pid
  }

  /** `alloc_pid` from candidate `cand` on: the least unused pid below the limit. */
  function FreePid(procs: Table, cand: nat): (r: Option<nat>)
    requires cand <= PID_LIMIT
    ensures r.Some? ==> cand <= r.value < PID_LIMIT && PidUnused(procs, r.value)
    ensures forall p: nat | cand <= p < (if r.Some? then r.value else PID_LIMIT) :: !PidUnused(procs, p)
    decreases PID_LIMIT - cand
  {
    if cand == PID_LIMIT then None
    else if PidUnused(procs, cand) then Some(cand)
    else FreePid(procs, cand + 1)
  }

  predicate IsChild(procs: Table, slot: nat, me: u64) {
    Present(procs, slot) && procs[slot].value.parent == Some(me)
  }

  predicate Wanted(procs: Table, slot: nat, target: int)
    requires Present(procs, slot)
  {
    target < 0 || procs[slot].value.pid == target
  }

  /** The scan of `wait_reap` from slot i: it gives up at the first living child of the caller. */
  function ReapSlot(procs: Table, me: u64, target: int, i: nat): (r: Option<nat>)
    requires i <= |procs|
    ensures r.Some? ==> i <= r.value && Zombie(procs, r.value) && IsChild(procs, r.value, me)
    ensures r.Some? ==> Wanted(procs, r.value, target)
    decreases |procs| - i
  {
    if i == |procs| then None
    else if !IsChild(procs, i, me) then ReapSlot(procs, me, target, i + 1)
    else if procs[i].value.exitCode == None then None
    else if !Wanted(procs, i, target) then ReapSlot(procs, me, target, i + 1)
    else Some(i)
  }

  /** `current_pid` */
  function CurrentPid(k: Kernel): u64 {
    if Present(k.procs, k.current) then k.procs[k.current].value.pid else 1
  }

  // ----- run queue -----

  /** `on_timer_tick`, with the counter it is given. */
  function TimerTick(k: Kernel): Kernel {
    var now := k.ticks + 1;
    k.(ticks := now, needResched := k.needResched || (now >= k.lastStarted && now - k.lastStarted >= SLICE))
  }

  function Enqueue(k: Kernel, slot: nat): Kernel {
    k.(runnable := if slot in k.runnable then k.runnable else k.runnable + [slot], needResched := true)
  }

  function Rotate(k: Kernel): Kernel {
    k.(runnable := if k.runnable == [] then [] else k.runnable[1..] + [k.runnable[0]], lastStarted := k.ticks)
  }

  /** The queue without this slot, the others in order. */
  function Without(q: seq<nat>, slot: nat): seq<nat> {
    if q == [] then [] else (if q[0] == slot then [] else [q[0]]) + Without(q[1..], slot)
  }

  /** The inner loop of `pick_next_and_restore`: drop dead processes off the front. */
  function DropDead(q: seq<nat>, procs: Table): seq<nat> {
    if q == [] || Alive(procs, q[0]) then q else DropDead(q[1..], procs)
  }

  datatype State =
    | Running(k: Kernel)   // k.current has just been restored and runs in user mode
    | Idle(k: Kernel)      // the halt loop of pick_next_and_restore
    | Panicked

  /** `set_current_slot` on the front of the queue: the process is current and calls enter on its own stack. */
  function Picked(k: Kernel): Kernel
    requires k.runnable != []
  {
    var slot := k.runnable[0];
    k.(current := slot, stackTop := if Present(k.procs, slot) then k.procs[slot].value.kstackTop else k.stackTop)
  }

  function PickNext(k: Kernel): State {
    var q := DropDead(k.runnable, k.procs);
    if q == [] then Idle(k.(runnable := [])) else Running(Picked(k.(runnable := q)))
  }

  /** What the process picked by the scheduler finds in its registers when it resumes. */
  function ResumedUser(k: Kernel): UserRegs
    requires Present(k.procs, k.current)
  {
    Resumed(k.procs[k.current].value.save, k.procs[k.current].value.pendingRax)
  }

  /** `set_syscall_saved` */
  function StoreSaved(k: Kernel, slot: nat, save: SyscallSaved, rax: u64): Kernel {
    if Present(k.procs, slot)
    then k.(procs := k.procs[slot := Some(k.procs[slot].value.(save := save, pendingRax := rax))])
    else k
  }

  /** `complete_syscall_and_schedule` */
  function Complete(k: Kernel, save: SyscallSaved, ret: u64): State {
    var k1 := StoreSaved(k, k.current, save, ret);
    PickNext(if k1.needResched then Rotate(k1.(needResched := false)) else k1)
  }

  function MarkExited(k: Kernel, code: int): Kernel {
    if Present(k.procs, k.current)
    then k.(procs := k.procs[k.current := Some(k.procs[k.current].value.(exitCode := Some(code)))])
    else k
  }

  /** `exit_and_schedule` */
  function ExitCurrent(k: Kernel, code: int): State {
    var k1 := MarkExited(k, code);
    PickNext(k1.(runnable := Without(k1.runnable, k1.current), needResched := true))
  }

  // ----- system calls -----

  datatype StatusPtr = NullStatus | GoodStatus | BadStatus

  datatype SysCall =
    | Yield
    | Fork(copied: bool, saved: SyscallSaved, childTop: u64)  // `saved` is the frame it reads; `copied`: see CanFork
    | Exit(code: int)
    | Wait(target: int, wstatus: StatusPtr)
    | Exec(frame: Option<SyscallSaved>, error: u64)  // a successful exec installs a bootstrap frame
    | Other(ret: u64)                                // calls that touch neither table nor queue

  datatype Dispatched = Returns(k: Kernel, ret: u64) | Exits(code: int) | Panics

  /** The child's stack can be prepared: the pointer in the frame lies below the top of the parent's stack and, if it
      does, the page could be mapped and the bytes copied (`ForkStack.CanPrepare`). */
  predicate CanFork(call: SysCall) {
    call.Fork? && call.copied && call.saved.userRsp < 0x402000
  }

  /** The frame the child gets: the one fork read, with the pointer moved to the child's page. */
  function ChildSave(saved: SyscallSaved): SyscallSaved {
    saved.(userRsp := ForkStack.ChildRsp(saved.userRsp))
  }

  function Child(k: Kernel, call: SysCall, pid: u64): Process
    requires call.Fork?
  {
    Process(pid, Some(CurrentPid(k)), None, call.childTop, ChildSave(call.saved), 0)
  }

  function ForkChild(k: Kernel, call: SysCall, pid: u64): Dispatched
    requires call.Fork?
  {
    if !Present(k.procs, k.current) || TableFull(k.procs) then Panics
    else
      var (procs, slot) := PlaceChild(k.procs, Child(k, call, pid));
      Returns(Enqueue(k.(procs := procs), slot), pid)
  }

  function Reap(k: Kernel, slot: nat): Kernel
    requires slot < |k.procs|
  {
    k.(procs := k.procs[slot := None])
  }

  function Dispatch(k: Kernel, call: SysCall): Dispatched {
    match call
    case Yield => Returns(k.(needResched := true), 0)
    case Fork(_, _, _) =>
      var pid := FreePid(k.procs, 2);
      if pid == None || !CanFork(call) then Returns(k, ENOMEM) else ForkChild(k, call, pid.value)
    case Exit(code) => Exits(code)
    case Wait(target, wstatus) =>
      var slot := ReapSlot(k.procs, CurrentPid(k), target, 0);
      if slot == None then Returns(k, EAGAIN)
      else
        var pid := k.procs[slot.value].value.pid;
        Returns(Reap(k, slot.value), if wstatus == BadStatus then EFAULT else pid)
    case Exec(frame, error) =>
      if frame.Some? then Returns(StoreSaved(k, k.current, frame.value, 0), 0) else Returns(k, error)
    case Other(ret) => Returns(k, ret)
  }

  datatype Event = Tick | Trap(user: UserRegs, above: u64, call: SysCall)

  /** One event. A trap enters on the stack CURRENT_KSTACK_TOP names, so the record the tail saves is
      `Record(user, stackTop, above)`; `above` is whatever lies beyond that top. */
  function Step(s: State, ev: Event): State {
    match s
    case Panicked => Panicked
    case Idle(k) => if ev == Tick then Idle(TimerTick(k)) else s
    case Running(k) =>
      if ev == Tick then Running(TimerTick(k))
      else
        match Dispatch(k, ev.call)
        case Returns(k1, ret) => Complete(k1, Record(ev.user, k.stackTop, ev.above), ret)
        case Exits(code) => ExitCurrent(k, code)
        case Panics => Panicked
  }

  function Run(s: State, evs: seq<Event>): State
    decreases |evs|
  {
    if evs == [] then s else Run(Step(s, evs[0]), evs[1..])
  }
}
