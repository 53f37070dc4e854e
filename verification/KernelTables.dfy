/** TABLE, CURRENT_SLOT, CURRENT_KSTACK_TOP, SCHED and NEED_RESCHED as one mutable object, updated in place as the
    kernel does, next to the processor whose registers a system call enters with and leaves with. */
module KernelTables {
  import opened Basics
  import opened SyscallContext
  import opened Scheduler

  lemma WithoutStep(q: seq<nat>, i: nat, slot: nat)
    requires i <= |q|
    ensures i == |q| ==> Without(q[i..], slot) == []
    ensures i < |q| ==> Without(q[i..], slot) == (if q[i] == slot then [] else [q[i]]) + Without(q[i + 1..], slot)
  {
    assert i < |q| ==> q[i..][1..] == q[i + 1..];
  }

  /** Every kernel stack is a page of memory, so its top lies at least a page above zero. */
  ghost predicate RealStacks(k: Kernel) {
    k.stackTop >= PAGE && forall j | 0 <= j < |k.procs| && k.procs[j].Some? :: k.procs[j].value.kstackTop >= PAGE
  }

  lemma DispatchKeepsStacks(k: Kernel, call: SysCall)
    requires RealStacks(k) && (call.Fork? ==> call.childTop >= PAGE)
    ensures Dispatch(k, call).Returns? ==> RealStacks(Dispatch(k, call).k)
  {
    hide FreePid;
  }

  class Tables {
    var procs: Table
    var runnable: seq<nat>
    var current: nat
    var needResched: bool
    var lastStarted: nat
    var ticks: nat
    var stackTop: u64

    function View(): Kernel
      reads this
    {
      Kernel(procs, runnable, current, needResched, lastStarted, ticks, stackTop)
    }

    constructor (k: Kernel)
      ensures View() == k
    {
      procs, runnable, current := k.procs, k.runnable, k.current;
      needResched, lastStarted, ticks, stackTop := k.needResched, k.lastStarted, k.ticks, k.stackTop;
    }

    // ----- process table -----

    /** The slot for a new process; grows a short table, fails on a full one. */
    method AllocSlot() returns (slot: Option<nat>)
      modifies this`procs
      ensures slot == None <==> TableFull(old(procs))
      ensures slot == None ==> procs == old(procs)
      ensures slot.Some? ==>
                && slot.value == FirstFree(old(procs), 0) && slot.value < |procs|
                && procs == if slot.value < |old(procs)| then old(procs) else old(procs) + [None]
    {
      for i := 0 to |procs|
        invariant FirstFree(procs, 0) == FirstFree(procs, i) && procs == old(procs)
        invariant forall j | 0 <= j < i :: procs[j] != None
      {
        if procs[i] == None {
          return Some(i);
        }
      }
      if |procs| < TABLE_SIZE {
        procs := procs + [None];
        return Some(|procs| - 1);
      }
      slot := None;
    }

    method AllocPid() returns (pid: Option<nat>)
      ensures pid == FreePid(procs, 2)
    {
      for cand := 2 to PID_LIMIT
        invariant FreePid(procs, 2) == FreePid(procs, cand)
      {
        var unused := true;
        for j := 0 to |procs|
          invariant unused <==> forall i | 0 <= i < j && procs[i].Some? :: procs[i].value.pid != cand
        {
          if procs[j].Some? && procs[j].value.pid == cand {
            unused := false;
          }
        }
        if unused {
          return Some(cand);
        }
      }
      pid := None;
    }

    method WaitReap(target: int) returns (r: Option<(u64, int)>)
      modifies this`procs
      ensures var slot := ReapSlot(old(procs), CurrentPid(old(View())), target, 0);
              if slot == None then r == None && procs == old(procs)
              else && procs == old(procs)[slot.value := None]
                   && r == Some((old(procs)[slot.value].value.pid, old(procs)[slot.value].value.exitCode.value))
    {
      var me := CurrentPid(View());
      for slot := 0 to |procs|
        invariant procs == old(procs)
        invariant ReapSlot(procs, me, target, 0) == ReapSlot(procs, me, target, slot)
      {
        if procs[slot] == None || procs[slot].value.parent != Some(me) {
          continue;
        }
        var p := procs[slot].value;
        if p.exitCode == None {
          return None;
        }
        if target >= 0 && p.pid != target {
          continue;
        }
        procs := procs[slot := None];
        return Some((p.pid, p.exitCode.value));
      }
      r := None;
    }

    method SetSyscallSaved(slot: nat, save: SyscallSaved, rax: u64)
      modifies this`procs
      ensures View() == StoreSaved(old(View()), slot, save, rax)
    {
      if slot < |procs| && procs[slot].Some? {
        procs := procs[slot := Some(procs[slot].value.(save := save, pendingRax := rax))];
      }
    }

    method SetExited(code: int)
      modifies this`procs
      ensures View() == MarkExited(old(View()), code)
    {
      if current < |procs| && procs[current].Some? {
        procs := procs[current := Some(procs[current].value.(exitCode := Some(code)))];
      }
    }

    // ----- run queue -----

    method OnTimerTick()
      modifies this
      ensures View() == TimerTick(old(View()))
    {
      ticks := ticks + 1;
      if ticks >= lastStarted && ticks - lastStarted >= SLICE {
        needResched := true;
      }
    }

    method EnqueueNewTask(slot: nat)
      modifies this`runnable, this`needResched
      ensures View() == Enqueue(old(View()), slot)
    {
      if slot !in runnable {
        runnable := runnable + [slot];
      }
      needResched := true;
    }

    method RotateRunnable()
      modifies this`runnable, this`lastStarted
      ensures View() == Rotate(old(View()))
    {
      if runnable != [] {
        runnable := runnable[1..] + [runnable[0]];
      }
      lastStarted := ticks;
    }

    /** Drops exited processes off the front and returns to user mode in the first living one, on its own stack;
        with an empty queue the kernel halts in place. */
    method PickNextAndRestore(cpu: Cpu) returns (s: State)
      requires RealStacks(View())
      modifies this`runnable, this`current, this`stackTop, cpu
      ensures s == PickNext(old(View())) && View() == s.k && RealStacks(View())
      ensures s.Running? ==> cpu.rsp < 0x1_0000_0000_0000_0000 && Present(procs, current)
      ensures s.Running? ==> cpu.User() == ResumedUser(View())
    {
      while runnable != [] && !Alive(procs, runnable[0])
        invariant DropDead(runnable, procs) == DropDead(old(runnable), procs)
        invariant current == old(current) && stackTop == old(stackTop)
        decreases |runnable|
      {
        runnable := runnable[1..];
      }
      if runnable == [] {
        return Idle(View());
      }
      SetCurrentSlot(runnable[0]);
      var p := procs[current].value;
      cpu.Resume(p.kstackTop, p.save, p.pendingRax);
      s := Running(View());
    }

    method SetCurrentSlot(slot: nat)
      modifies this`current, this`stackTop
      ensures current == slot
      ensures stackTop == if Present(procs, slot) then procs[slot].value.kstackTop else old(stackTop)
    {
      current := slot;
      if slot < |procs| && procs[slot].Some? {
        stackTop := procs[slot].value.kstackTop;
      }
    }

    /** The tail of a call: the record is read off the kernel stack at rsp. */
    method CompleteSyscallAndSchedule(cpu: Cpu, ret: u64) returns (s: State)
      requires RealStacks(View()) && Saveable(cpu.mem, cpu.rsp)
      modifies this, cpu
      ensures s == Complete(old(View()), SaveFrom(old(cpu.mem), old(cpu.rsp)), ret)
      ensures View() == s.k && RealStacks(View())
      ensures s.Running? ==> cpu.rsp < 0x1_0000_0000_0000_0000 && Present(procs, current)
      ensures s.Running? ==> cpu.User() == ResumedUser(View())
    {
      hide PickNext, SaveFrom;
      SetSyscallSaved(current, SaveFrom(cpu.mem, cpu.rsp), ret);
      if needResched {
        needResched := false;
        RotateRunnable();
      }
      s := PickNextAndRestore(cpu);
    }

    /** Keeps every queued slot but this one, in order. */
    method RetainOthers(slot: nat)
      modifies this`runnable
      ensures runnable == Without(old(runnable), slot)
    {
      hide Without;
      var kept: seq<nat> := [];
      assert [] + Without(runnable[0..], slot) == Without(runnable, slot);
      for i := 0 to |runnable|
        invariant runnable == old(runnable)
        invariant kept + Without(runnable[i..], slot) == Without(runnable, slot)
      {
        WithoutStep(runnable, i, slot);
        if runnable[i] != slot {
          kept := kept + [runnable[i]];
        }
      }
      WithoutStep(runnable, |runnable|, slot);
      runnable := kept;
    }

    method ExitAndSchedule(cpu: Cpu, code: int) returns (s: State)
      requires RealStacks(View())
      modifies this, cpu
      ensures s == ExitCurrent(old(View()), code) && View() == s.k && RealStacks(View())
      ensures s.Running? ==> cpu.rsp < 0x1_0000_0000_0000_0000 && Present(procs, current)
      ensures s.Running? ==> cpu.User() == ResumedUser(View())
    {
      hide PickNext;
      SetExited(code);
      RetainOthers(current);
      needResched := true;
      s := PickNextAndRestore(cpu);
    }

    // ----- system calls -----

    /** `sys_fork`; None stands for the panic of an unwrap. */
    method SysFork(call: SysCall) returns (ret: Option<u64>)
      requires call.Fork?
      modifies this
      ensures match Dispatch(old(View()), call)
              case Returns(k, r) => ret == Some(r) && View() == k
              case Panics => ret == None
              case Exits(_) => false
    {
      var pid := AllocPid();
      if pid == None || !CanFork(call) {
        return Some(ENOMEM);
      }
      if !Present(procs, current) {
        return None;
      }
      var child := Child(View(), call, pid.value);
      var slot := AllocSlot();
      if slot == None {
        return None;
      }
      procs := procs[slot.value := Some(child)];
      EnqueueNewTask(slot.value);
      ret := Some(pid.value);
    }

    /** `status` is what it writes through the pointer, if it does. */
    method SysWait4(target: int, wstatus: StatusPtr) returns (ret: u64, status: Option<int>)
      modifies this`procs
      ensures Returns(View(), ret) == Dispatch(old(View()), Wait(target, wstatus))
      ensures var slot := ReapSlot(old(procs), CurrentPid(old(View())), target, 0);
              status == if slot.Some? && wstatus == GoodStatus then old(procs)[slot.value].value.exitCode else None
    {
      status := None;
      var r := WaitReap(target);
      if r == None {
        return EAGAIN, None;
      }
      if wstatus == BadStatus {
        return EFAULT, None;
      }
      if wstatus == GoodStatus {
        status := Some(r.value.1);
      }
      ret := r.value.0;
    }

    /** Dispatch of every call but exit; None stands for the panic of an unwrap. */
    method DispatchCall(call: SysCall) returns (ret: Option<u64>)
      requires !call.Exit?
      modifies this
      ensures match Dispatch(old(View()), call)
              case Returns(k, r) => ret == Some(r) && View() == k
              case Panics => ret == None
              case Exits(_) => false
    {
      hide ForkChild;
      match call {
        case Yield =>
          needResched := true;
          ret := Some(0);
        case Fork(_, _, _) =>
          ret := SysFork(call);
        case Wait(target, wstatus) =>
          var r, _ := SysWait4(target, wstatus);
          ret := Some(r);
        case Exec(frame, error) =>
          if frame == None {
            return Some(error);
          }
          SetSyscallSaved(current, frame.value, 0);
          ret := Some(0);
        case Other(r) =>
          ret := Some(r);
      }
    }

    /** One trap of the running process, from its registers at the `syscall` instruction to the registers of the
        process that resumes. The call enters on the stack CURRENT_KSTACK_TOP names; while it is dispatched all of
        kernel memory but the entry frame may change (`busy`). */
    method HandleTrap(cpu: Cpu, busy: map<nat, u64>, call: SysCall) returns (s: State)
      requires RealStacks(View()) && (call.Fork? ==> call.childTop >= PAGE)
      requires cpu.rsp < 0x1_0000_0000_0000_0000 && stackTop in busy
      requires Kept(EntryFrame(cpu.mem, cpu.User(), stackTop), busy, stackTop - 72, stackTop)
      modifies this, cpu
      ensures s == Step(Running(old(View())), Trap(old(cpu.User()), busy[old(stackTop)], call))
      ensures !s.Panicked? ==> View() == s.k && RealStacks(View())
      ensures s.Running? ==> cpu.rsp < 0x1_0000_0000_0000_0000 && Present(procs, current)
      ensures s.Running? ==> cpu.User() == ResumedUser(View())
    {
      hide PickNext, Complete, ExitCurrent, RealStacks, SaveFrom, EntryFrame, Kept, FrameAt, ForkChild, FreePid;
      ghost var k, u := View(), cpu.User();
      EntryTopFits(k);
      EntryFrameStays(cpu.mem, u, stackTop, busy);
      SavedRecord(busy, u, stackTop);
      cpu.SyscallEntry(stackTop);
      cpu.mem := busy;
      if call.Exit? {
        s := ExitAndSchedule(cpu, call.code);
        return;
      }
      DispatchKeepsStacks(k, call);
      var ret := DispatchCall(call);
      if ret == None {
        return Panicked;
      }
      s := CompleteSyscallAndSchedule(cpu, ret.value);
    }
  }

  lemma EntryTopFits(k: Kernel)
    requires RealStacks(k)
    ensures k.stackTop >= 96
  {
  }
}
