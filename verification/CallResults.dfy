/** What each call of the process table returns and what it leaves behind, in the terms a program sees: the value in
    rax, the entries of the table and the order of the queue. */
module CallResults {
  import opened Basics
  import opened SyscallContext
  import opened Scheduler
  import opened SchedulerRuns

  /** The caller's entry once its record and its return value are stored. */
  function Answered(p: Process, user: UserRegs, top: u64, above: u64, rax: u64): Process {
    Process(p.pid, p.parent, p.exitCode, p.kstackTop, Record(user, top, above), rax)
  }

  /** The call is over and the front of queue q runs, on its own stack, with table `procs`. A slice starts exactly when
      the queue was turned; no reschedule is due and no time has passed. */
  ghost predicate Resumes(k: Kernel, s: State, procs: Table, q: seq<nat>, turned: bool) {
    && q != [] && Alive(procs, q[0])
    && s == Running(Kernel(procs, q, q[0], false, if turned then k.ticks else k.lastStarted, k.ticks,
                           procs[q[0]].value.kstackTop))
  }

  /** A call that returns stores its result with the caller and touches the rest of the table no further. The queue
      turns by one exactly when a reschedule is due. */
  lemma Tail(k: Kernel, ev: Event)
    requires Good(Running(k)) && ev.Trap? && Dispatch(k, ev.call).Returns?
    ensures var d := Dispatch(k, ev.call);
            && Alive(d.k.procs, k.current) && d.k.runnable != []
            && Resumes(k, Step(Running(k), ev),
                       d.k.procs[k.current := Some(Answered(d.k.procs[k.current].value, ev.user, k.stackTop, ev.above,
                                                            d.ret))],
                       if d.k.needResched then d.k.runnable[1..] + [k.current] else d.k.runnable, d.k.needResched)
  {
    hide TableInv, PickNext;
    DispatchKeeps(k, ev.call);
    ClockKept(k, ev.call);
    var d := Dispatch(k, ev.call);
    CurrentAlive(d.k);
    CompleteGood(d.k, Record(ev.user, k.stackTop, ev.above), d.ret);
    var s := Step(Running(k), ev);
    StepGood(Running(k), ev);
    CurrentAlive(s.k);
  }

  /** No call touches the clock. */
  lemma ClockKept(k: Kernel, call: SysCall)
    requires Dispatch(k, call).Returns?
    ensures var d := Dispatch(k, call);
            && d.k.ticks == k.ticks && d.k.lastStarted == k.lastStarted && d.k.current == k.current
            && d.k.stackTop == k.stackTop
  {
    hide FreePid, ReapSlot, FirstFree;
  }

  /** A timer interrupt advances the clock by one and asks for a reschedule 12 ticks after the slice began; a processor
      that idles goes on idling, and calls reach neither it nor a kernel that has stopped. */
  lemma OtherEvents(s: State, ev: Event)
    ensures s.Running? ==>
              Step(s, Tick) == Running(s.k.(ticks := s.k.ticks + 1,
                                            needResched := s.k.needResched || s.k.ticks + 1 >= s.k.lastStarted + 12))
    ensures s.Idle? ==>
              && Step(s, Tick) == Idle(s.k.(ticks := s.k.ticks + 1,
                                            needResched := s.k.needResched || s.k.ticks + 1 >= s.k.lastStarted + 12))
              && (ev.Trap? ==> Step(s, ev) == s)
    ensures s.Panicked? ==> Step(s, ev) == s
  {
  }

  // ----- fork -----

  /** Nobody in the table has this pid. */
  ghost predicate Unused(procs: Table, pid: u64) {
    forall j | 0 <= j < |procs| && procs[j].Some? :: procs[j].value.pid != pid
  }

  ghost predicate Empty(procs: Table, slot: nat) {
    slot < |procs| ==> procs[slot] == None
  }

  /** Fork returns the least pid of 2 to 1023 that nobody has. One new entry appears, in the lowest empty slot: it has
      that pid, the caller as its parent, and zero for its own return value. The child is queued behind everyone who
      waited and in front of the caller. */
  lemma ForkReturns(k: Kernel, user: UserRegs, above: u64, save: SyscallSaved, top: u64) returns (pid: u64, slot: nat)
    requires Good(Running(k)) && !TableFull(k.procs) && save.userRsp < 0x402000
    ensures Alive(k.procs, k.current)
    ensures 2 <= pid < 1024 && Unused(k.procs, pid) && forall p: u64 | 2 <= p < pid :: !Unused(k.procs, p)
    ensures slot < 32 && Empty(k.procs, slot) && forall j: nat | j < slot :: !Empty(k.procs, j)
    ensures var s := Step(Running(k), Trap(user, above, Fork(true, save, top)));
            var me := k.procs[k.current].value;
            && s.Running? && slot < |s.k.procs| && |k.procs| <= |s.k.procs| && slot != k.current
            && s.k.procs[slot]
               == Some(Process(pid, Some(me.pid), None, top, save.(userRsp := save.userRsp + 0x1000), 0))
            && s.k.procs[k.current] == Some(Answered(me, user, k.stackTop, above, pid))
            && (forall j | 0 <= j < |k.procs| && j != slot && j != k.current :: s.k.procs[j] == k.procs[j])
            && (forall j | 0 <= j < |s.k.procs| && j != slot && s.k.procs[j].Some? :: s.k.procs[j].value.pid != pid)
            && s.k.runnable == k.runnable[1..] + [slot, k.current]
            && Resumes(k, s, s.k.procs, s.k.runnable, true)
  {
    hide TableInv, FreePid, FirstFree, TableFull, Step;
    var call := Fork(true, save, top);
    var ev := Trap(user, above, call);
    CurrentAlive(k);
    QueuedLive(k);
    PidAlwaysFree(k.procs);
    pid := FreePid(k.procs, 2).value;
    slot := FirstFree(k.procs, 0);
    LeastUnused(k.procs, pid);
    LowestEmpty(k.procs);
    DispatchKeeps(k, call);
    Tail(k, ev);
    PlacedChild(k, call, pid);
  }

  lemma QueuedLive(k: Kernel)
    requires TableInv(k)
    ensures |k.procs| <= 32 && forall j | 0 <= j < |k.runnable| :: Alive(k.procs, k.runnable[j])
  {
    forall j | 0 <= j < |k.runnable| ensures Alive(k.procs, k.runnable[j]) {
      assert k.runnable[j] in k.runnable;
    }
  }

  lemma LeastUnused(procs: Table, pid: u64)
    requires FreePid(procs, 2) == Some(pid)
    ensures 2 <= pid < 1024 && Unused(procs, pid) && forall p: u64 | 2 <= p < pid :: !Unused(procs, p)
  {
    forall p: u64 | 2 <= p < pid ensures !Unused(procs, p) {
      assert !PidUnused(procs, p);
    }
  }

  lemma LowestEmpty(procs: Table)
    requires |procs| <= 32 && !TableFull(procs)
    ensures var slot := FirstFree(procs, 0);
            slot < 32 && Empty(procs, slot) && forall j: nat | j < slot :: !Empty(procs, j)
  {
  }

  lemma PlacedChild(k: Kernel, call: SysCall, pid: u64)
    requires call.Fork? && Alive(k.procs, k.current) && FrontIsCurrent(k) && !TableFull(k.procs)
    requires forall j | 0 <= j < |k.runnable| :: Alive(k.procs, k.runnable[j])
    requires Unused(k.procs, pid)
    ensures var d := ForkChild(k, call, pid);
            var slot := FirstFree(k.procs, 0);
            && d.Returns? && d.ret == pid && d.k.needResched && d.k.runnable == k.runnable + [slot]
            && slot < |d.k.procs| && slot != k.current
            && d.k.procs[slot] ==
               Some(Process(pid, Some(k.procs[k.current].value.pid), None, call.childTop, ChildSave(call.saved), 0))
            && (forall j | 0 <= j < |k.procs| && j != slot :: d.k.procs[j] == k.procs[j])
            && (forall j | 0 <= j < |d.k.procs| && j != slot && d.k.procs[j].Some? :: d.k.procs[j].value.pid != pid)
  {
  }

  /** And so, whatever happens until then: the parent resumes behind its call with the new pid in rax, and the child
      resumes from the frame it was given with zero. As the return path is one word off, the child's stack pointer is
      the frame's `userRip`; the pointer that fork moved to the child's page is not among its registers. */
  lemma ForkReturnsTwice(k: Kernel, user: UserRegs, above: u64, save: SyscallSaved, top: u64, evs: seq<Event>)
    returns (pid: u64, slot: nat)
    requires Good(Running(k)) && !TableFull(k.procs) && save.userRsp < 0x402000
    ensures 2 <= pid < 1024 && Unused(k.procs, pid)
    ensures var s := Step(Running(k), Trap(user, above, Fork(true, save, top)));
            var s' := Run(s, evs);
            && Alive(k.procs, k.current) && s.Running? && Alive(s.k.procs, slot) && Empty(k.procs, slot)
            && s.k.procs[slot].value.pid == pid && s.k.procs[slot].value.parent == Some(k.procs[k.current].value.pid)
            && (s'.Running? && s'.k.current == k.current && Away(s, evs, k.current) ==>
                  && Present(s'.k.procs, k.current)
                  && ResumedUser(s'.k) == user.(rax := pid, r14 := k.stackTop, r15 := 0))
            && (s'.Running? && s'.k.current == slot && Away(s, evs, slot) ==>
                  && Present(s'.k.procs, slot) && ResumedUser(s'.k) == Resumed(save, 0) && ResumedUser(s'.k).rax == 0
                  && ResumedUser(s'.k).rsp == save.userRip && ResumedUser(s'.k).rip == save.userRflags)
  {
    hide TableInv, FreePid, FirstFree, TableFull, Step, Away;
    pid, slot := ForkReturns(k, user, above, save, top);
    var ev := Trap(user, above, Fork(true, save, top));
    StepGood(Running(k), ev);
    var s := Step(Running(k), ev);
    if Away(s, evs, k.current) {
      EntrySurvives(s, evs, k.current);
      ShiftsCancel(user, k.stackTop, above, pid);
    }
    if Away(s, evs, slot) {
      EntrySurvives(s, evs, slot);
    }
  }

  /** Only the caller's answer has changed, and the queue has turned if a reschedule was already due. */
  ghost predicate OnlyAnswers(k: Kernel, s: State, user: UserRegs, above: u64, rax: u64) {
    && Alive(k.procs, k.current) && k.runnable != []
    && Resumes(k, s, k.procs[k.current := Some(Answered(k.procs[k.current].value, user, k.stackTop, above, rax))],
               if k.needResched then k.runnable[1..] + [k.current] else k.runnable, k.needResched)
  }

  /** When the stack cannot be mapped and copied, or the pointer in the frame is at or above 0x402000, fork returns -12
      and makes nobody; with all 32 slots taken the kernel panics. */
  lemma ForkRefused(k: Kernel, user: UserRegs, above: u64, save: SyscallSaved, top: u64)
    requires Good(Running(k))
    ensures OnlyAnswers(k, Step(Running(k), Trap(user, above, Fork(false, save, top))), user, above,
                        0x1_0000_0000_0000_0000 - 12)
    ensures save.userRsp >= 0x402000 ==>
              OnlyAnswers(k, Step(Running(k), Trap(user, above, Fork(true, save, top))), user, above,
                          0x1_0000_0000_0000_0000 - 12)
    ensures Step(Running(k), Trap(user, above, Fork(true, save, top))) == Panicked <==>
            save.userRsp < 0x402000 && |k.procs| == 32 && forall j: nat | j < 32 :: k.procs[j].Some?
  {
    hide FreePid;
    Tail(k, Trap(user, above, Fork(false, save, top)));
    if save.userRsp >= 0x402000 {
      Tail(k, Trap(user, above, Fork(true, save, top)));
    }
    DispatchKeeps(k, Fork(true, save, top));
  }

  // ----- yield, exec and the calls that leave the table alone -----

  /** Yield returns 0 and gives way: the caller goes last, and whoever was second runs with a slice that starts now. */
  lemma YieldReturns(k: Kernel, user: UserRegs, above: u64)
    requires Good(Running(k))
    ensures var s := Step(Running(k), Trap(user, above, Yield));
            && s.Running? && Alive(k.procs, k.current)
            && s.k.procs == k.procs[k.current := Some(Answered(k.procs[k.current].value, user, k.stackTop, above, 0))]
            && s.k.runnable == k.runnable[1..] + [k.current]
            && s.k.current == (if |k.runnable| > 1 then k.runnable[1] else k.current)
            && s.k.lastStarted == s.k.ticks == k.ticks && !s.k.needResched
            && Resumes(k, s, s.k.procs, s.k.runnable, true)
  {
    hide TableInv;
    Tail(k, Trap(user, above, Yield));
  }

  /** Exec returns 0 when it installed a frame and its error code otherwise; the frame itself is overwritten by the
      record of the call. Every other call returns its own result. */
  lemma ExecAndOthersReturn(k: Kernel, user: UserRegs, above: u64, frame: SyscallSaved, e: u64)
    requires Good(Running(k))
    ensures OnlyAnswers(k, Step(Running(k), Trap(user, above, Exec(Some(frame), e))), user, above, 0)
    ensures OnlyAnswers(k, Step(Running(k), Trap(user, above, Exec(None, e))), user, above, e)
    ensures OnlyAnswers(k, Step(Running(k), Trap(user, above, Other(e))), user, above, e)
  {
    hide TableInv;
    CurrentAlive(k);
    Tail(k, Trap(user, above, Exec(Some(frame), e)));
    Tail(k, Trap(user, above, Exec(None, e)));
    Tail(k, Trap(user, above, Other(e)));
  }

  /** The queue turns at the end of a yield, of a fork that returns a pid, and of any call if a reschedule was due
      before it; at the end of no other. */
  lemma CallsThatTurn(k: Kernel, call: SysCall)
    requires Dispatch(k, call).Returns?
    ensures var d := Dispatch(k, call);
            d.k.needResched <==> k.needResched || call.Yield? || (call.Fork? && d.ret < 1024)
  {
    hide FirstFree, ReapSlot;
  }

  /** Whoever runs after a yield, a fork or any other call that turns the queue has 12 ticks from then on: as long as it
      neither yields, forks nor exits, it gives way at a call exactly when 12 interrupts have come. */
  lemma TurnStartsSlice(k: Kernel, ev: Event, evs: seq<Event>, next: Event)
    requires Good(Running(k)) && ev.Trap? && Dispatch(k, ev.call).Returns?
    requires k.needResched || ev.call.Yield? || (ev.call.Fork? && Dispatch(k, ev.call).ret < 1024)
    requires var s := Step(Running(k), ev); CountSwitches(s, evs) == 0 && !Run(s, evs).Panicked?
    requires next.Trap? && forall e | e in evs + [next] :: Quiet(e)
    ensures var s := Step(Running(k), ev);
            && s.Running? && s.k.lastStarted == s.k.ticks == k.ticks && Run(s, evs).Running?
            && (Switches(Run(s, evs).k, next) <==> CountTicks(evs) >= 12)
  {
    hide TableInv, Step, Switches, Quiet, FreePid;
    CallsThatTurn(k, ev.call);
    Tail(k, ev);
    StepGood(Running(k), ev);
    SliceIsTwelveTicks(Step(Running(k), ev), evs, next);
  }

  // ----- exit and wait -----

  /** Exit marks the caller, takes it off the queue and lets whoever was second run. */
  lemma ExitLeaves(k: Kernel, user: UserRegs, above: u64, code: int)
    requires Good(Running(k))
    ensures var s := Step(Running(k), Trap(user, above, Exit(code)));
            && !s.Panicked? && Alive(k.procs, k.current)
            && s.k.procs == k.procs[k.current := Some(k.procs[k.current].value.(exitCode := Some(code)))]
            && s.k.runnable == k.runnable[1..]
            && s.k.needResched && s.k.lastStarted == k.lastStarted && s.k.ticks == k.ticks
            && (s.Idle? <==> |k.runnable| == 1)
            && (s.Idle? ==> s.k.current == k.current && s.k.stackTop == k.stackTop)
            && (s.Running? ==>
                  && s.k.current == k.runnable[1] && Alive(k.procs, k.runnable[1])
                  && s.k.stackTop == k.procs[k.runnable[1]].value.kstackTop)
  {
    hide TableInv, PickNext;
    QueuedLive(k);
    CurrentAlive(k);
    ExitGood(k, code);
  }

  /** Slot z holds a child of `me` that has exited, every child in a lower slot has exited too, and with a target of
      zero or more the child is the one with that pid. */
  ghost predicate Claimable(procs: Table, me: u64, target: int, z: nat) {
    && z < |procs| && procs[z].Some? && procs[z].value.parent == Some(me) && procs[z].value.exitCode.Some?
    && (target >= 0 ==> procs[z].value.pid == target)
    && forall j | 0 <= j < z && procs[j].Some? && procs[j].value.parent == Some(me) :: procs[j].value.exitCode.Some?
  }

  ghost predicate LowestClaim(procs: Table, me: u64, target: int, z: nat) {
    Claimable(procs, me, target, z) && forall y: nat | y < z :: !Claimable(procs, me, target, y)
  }

  lemma ClaimableIsReapable(procs: Table, me: u64, target: int, z: nat)
    ensures Claimable(procs, me, target, z) <==> Reapable(procs, me, target, 0, z)
  {
    if Claimable(procs, me, target, z) {
      forall j: nat | j < z ensures !(IsChild(procs, j, me) && Alive(procs, j)) {
      }
    }
    if Reapable(procs, me, target, 0, z) {
      forall j | 0 <= j < z && procs[j].Some? && procs[j].value.parent == Some(me)
        ensures procs[j].value.exitCode.Some?
      {
        assert !(IsChild(procs, j, me) && Alive(procs, j));
      }
    }
  }

  /** Wait frees the lowest slot it may claim and returns that child's pid, the target itself when one is named; with a
      bad status pointer it returns -14, the child gone all the same. With no such slot it returns -11 and changes
      nothing. */
  lemma WaitReturns(k: Kernel, target: int, wstatus: StatusPtr)
    requires Alive(k.procs, k.current)
    ensures var d := Dispatch(k, Wait(target, wstatus));
            var me := k.procs[k.current].value.pid;
            && d.Returns?
            && ((forall z: nat :: !Claimable(k.procs, me, target, z)) ==>
                  d.k == k && d.ret == 0x1_0000_0000_0000_0000 - 11)
            && (forall z: nat | LowestClaim(k.procs, me, target, z) ::
                  && d.k == k.(procs := k.procs[z := None])
                  && (wstatus != BadStatus && target < 0 ==> d.ret == k.procs[z].value.pid)
                  && (wstatus != BadStatus && target >= 0 ==> d.ret == target)
                  && (wstatus == BadStatus ==> d.ret == 0x1_0000_0000_0000_0000 - 14))
  {
    hide Reapable, Claimable;
    var me := k.procs[k.current].value.pid;
    WaitFinds(k.procs, me, target, 0);
    var r := ReapSlot(k.procs, me, target, 0);
    forall z: nat ensures Claimable(k.procs, me, target, z) <==> Reapable(k.procs, me, target, 0, z) {
      ClaimableIsReapable(k.procs, me, target, z);
    }
    if r.Some? {
      assert Claimable(k.procs, me, target, r.value);
      ClaimedPid(k.procs, me, target, r.value);
      forall z: nat | LowestClaim(k.procs, me, target, z) ensures z == r.value {
        assert Reapable(k.procs, me, target, 0, z);
      }
    }
  }

  lemma ClaimedPid(procs: Table, me: u64, target: int, z: nat)
    requires Claimable(procs, me, target, z)
    ensures z < |procs| && procs[z].Some? && (target >= 0 ==> procs[z].value.pid == target)
  {
  }
}
