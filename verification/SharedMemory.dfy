/**
 All processes at once. Fork gives every process its own `brk_end` and area list but leaves them one page table, one
 frame pool and one mmap bump pointer (src/process.rs:464-480). The events are memory calls by any process, forks and
 reaps; the theorems hold over every run of them.
 */
module SharedMemory {
  import opened Basics
  import opened Paging
  import opened PageRanges
  import opened UserMemory
  import opened MemoryExactness
  import opened AddressSpace
  import ForkStack
  import MemoryResults

  /** What a process keeps for itself. */
  datatype Own = Own(brkEnd: nat, areas: seq<VmArea>)

  datatype Shared = Shared(mem: Mem, procs: map<nat, Own>, nextMmap: nat, nextId: nat)

  datatype Event =
    | By(pid: nat, call: Call)
    | Fork(parent: nat, child: nat, rsp: u64)      // `rsp` is the parent's stack pointer as fork reads it
    | Reap(gone: nat)                              // frees the table entry and no page

  /** The state as one process sees it. */
  function ViewOf(s: Shared, pid: nat): User
    requires pid in s.procs
  {
    User(s.mem, s.procs[pid].brkEnd, s.procs[pid].areas, s.nextMmap, s.nextId)
  }

  function Back(s: Shared, pid: nat, u: User): Shared {
    Shared(u.mem, s.procs[pid := Own(u.brkEnd, u.areas)], u.nextMmap, u.nextId)
  }

  ghost function Step(s: Shared, ev: Event): Shared {
    match ev
    case By(pid, call) => if pid !in s.procs then s else Back(s, pid, Do(ViewOf(s, pid), call).user)
    case Fork(pid, child, rsp) =>
      if pid !in s.procs || child in s.procs then s
      else
        var o := Do(ViewOf(s, pid), MapChildStack);
        var s1 := s.(mem := o.user.mem);
        if ForkStack.CanPrepare(s.mem, rsp) then s1.(procs := s1.procs[child := s.procs[pid]]) else s1
    case Reap(pid) => s.(procs := s.procs - {pid})
  }

  ghost function Run(s: Shared, evs: seq<Event>): Shared
    decreases |evs|
  {
    if evs == [] then s else Run(Step(s, evs[0]), evs[1..])
  }

  /** A fork maps the child's page first, whatever becomes of it. If it succeeds it leaves parent and child with the
      same view of memory, heap and areas; everyone else's list stays, and one that fails makes no process. */
  lemma ForkShares(s: Shared, pid: nat, child: nat, rsp: u64)
    requires pid in s.procs && child !in s.procs
    ensures var s' := Step(s, Fork(pid, child, rsp));
            && s'.nextMmap == s.nextMmap && s'.nextId == s.nextId && s'.mem == ForkStack.WithChildPage(s.mem).0
            && (0x402 in s'.mem.pt <==> ForkStack.WithChildPage(s.mem).1 == Mapped)
            && (forall p | p != 0x402 :: p in s'.mem.pt <==> p in s.mem.pt)
            && (child in s'.procs <==> ForkStack.CanPrepare(s.mem, rsp))
            && (0x401000 <= rsp < 0x402000 ==> (child in s'.procs <==> 0x401 in s.mem.pt && 0x402 in s'.mem.pt))
            && (rsp >= 0x402000 ==> child !in s'.procs)
            && (child in s'.procs ==> ViewOf(s', child) == ViewOf(s', pid))
            && s'.procs - {child} == s.procs
  {
    hide AllocAndMap;
    AllocAndMapPages(s.mem, 0x402, HEAP_FLAGS);
    ForkStack.ChildPageThere(s.mem);
    ForkStack.PrepareExactly(s.mem, rsp);
    hide ForkStack.CanPrepare;
    var s' := Step(s, Fork(pid, child, rsp));
    assert s'.procs - {child} == s.procs;
  }

  /** The fork of the runs is the one of the code: preparing the stack on the mutable memory leaves what the step
      leaves, and succeeds exactly when the step makes a process. */
  method ForkHappens(space: Space, rsp: u64, ghost s: Shared, ghost pid: nat, ghost child: nat) returns (ok: bool)
    requires space.Valid() && Owned(space.View()) && s.mem == space.View() && pid in s.procs && child !in s.procs
    modifies space, space.frames, space.frames.bitmap
    ensures var s' := Step(s, Fork(pid, child, rsp)); s'.mem == space.View() && (ok <==> child in s'.procs)
  {
    hide Step, Owned;
    ForkShares(s, pid, child, rsp);
    ghost var done;
    ok, done := ForkStack.MapChildStackAndCopy(space, rsp);
  }

  /** A call is the caller's own step: the others keep their lists. A reap forgets one process and leaves memory, and so
      the pages only that process recorded, as it is. */
  lemma OneProcessMoves(s: Shared, pid: nat, call: Call)
    requires pid in s.procs
    ensures var s' := Step(s, By(pid, call));
            && s'.procs.Keys == s.procs.Keys && ViewOf(s', pid) == Do(ViewOf(s, pid), call).user
            && forall q | q in s.procs && q != pid :: s'.procs[q] == s.procs[q]
    ensures var s' := Step(s, Reap(pid));
            && s'.procs.Keys == s.procs.Keys - {pid} && s' == s.(procs := s'.procs)
            && forall q | q in s'.procs :: ViewOf(s', q) == ViewOf(s, q)
  {
    hide Do;
    var s' := Step(s, By(pid, call));
    assert s'.procs.Keys == s.procs.Keys;
  }

  /** Nobody who is not there moves anything, and no fork takes a pid that is in use. */
  lemma StrangersMoveNothing(s: Shared, pid: nat, call: Call, child: nat, rsp: u64)
    ensures pid !in s.procs ==> Step(s, By(pid, call)) == s && Step(s, Reap(pid)) == s
    ensures pid !in s.procs || child in s.procs ==> Step(s, Fork(pid, child, rsp)) == s
  {
    if pid !in s.procs {
      assert s.procs - {pid} == s.procs;
    }
  }

  // ----- frame ownership and conservation, over every run of every process -----

  /** The event failed inside `map_to`. */
  ghost predicate LosesFrame(s: Shared, ev: Event) {
    match ev
    case By(pid, call) => pid in s.procs && Do(ViewOf(s, pid), call).mapping == MapFailed
    case Fork(pid, child, _) =>
      pid in s.procs && child !in s.procs && Do(ViewOf(s, pid), MapChildStack).mapping == MapFailed
    case Reap(_) => false
  }

  ghost function FramesLost(s: Shared, evs: seq<Event>): nat
    decreases |evs|
  {
    if evs == [] then 0 else (if LosesFrame(s, evs[0]) then 1 else 0) + FramesLost(Step(s, evs[0]), evs[1..])
  }

  lemma StepKeeps(s: Shared, ev: Event)
    requires Owned(s.mem)
    ensures Balanced(s.mem, Step(s, ev).mem)
    ensures |Step(s, ev).mem.lost| == |s.mem.lost| + (if LosesFrame(s, ev) then 1 else 0)
  {
    hide Owned, Universe, Do;
    match ev
    case By(pid, call) =>
      if pid in s.procs {
        CallKeeps(ViewOf(s, pid), call);
      }
    case Fork(pid, _, _) =>
      if pid in s.procs {
        CallKeeps(ViewOf(s, pid), MapChildStack);
      }
    case Reap(_) =>
  }

  /** In every run of brk, mmap, munmap, image load and image unmap by any processes, with forks and reaps anywhere and
      whatever fails on the way: no frame ever has two owners, the frames in play stay the same set, and the number of
      lost frames grows by exactly the number of events that failed inside `map_to`. */
  lemma {:induction false} FramesOwnedOverRuns(s: Shared, evs: seq<Event>)
    requires Owned(s.mem)
    ensures Balanced(s.mem, Run(s, evs).mem)
    ensures |Run(s, evs).mem.lost| == |s.mem.lost| + FramesLost(s, evs)
    decreases |evs|
  {
    hide Owned, Universe, Step, LosesFrame;
    if evs != [] {
      StepKeeps(s, evs[0]);
      FramesOwnedOverRuns(Step(s, evs[0]), evs[1..]);
    }
  }

  /** Conservation in numbers: free frames, user pages, page tables and lost frames add up to a constant. */
  lemma FramesConservedOverRuns(s: Shared, evs: seq<Event>)
    requires Owned(s.mem)
    ensures Count(Run(s, evs).mem) == Count(s.mem)
  {
    FramesOwnedOverRuns(s, evs);
    CountIsUniverse(s.mem);
    CountIsUniverse(Run(s, evs).mem);
  }

  /** Over every run, each mapped page has its page tables. */
  lemma {:induction false} RootedOverRuns(s: Shared, evs: seq<Event>)
    requires Rooted(s.mem)
    ensures Rooted(Run(s, evs).mem)
    decreases |evs|
  {
    hide Rooted, Do;
    if evs != [] {
      match evs[0] {
        case By(pid, call) =>
          if pid in s.procs {
            CallRooted(ViewOf(s, pid), call);
          }
        case Fork(pid, _, _) =>
          if pid in s.procs {
            CallRooted(ViewOf(s, pid), MapChildStack);
          }
        case Reap(_) =>
      }
      RootedOverRuns(Step(s, evs[0]), evs[1..]);
    }
  }

  // ----- pages outside heap and mmap window -----

  /** The page lies neither in the brk window nor in the mmap window. */
  predicate OutsideWindows(p: nat) {
    p < PageOf(USER_BRK_BASE) || PageOf(USER_MMAP_LIMIT) <= p
  }

  /** Every process's heap end and areas lie in their windows, whether or not the pages are still mapped. */
  ghost predicate Tidy(s: Shared) {
    && s.nextMmap % PAGE == 0 && USER_MMAP_BASE <= s.nextMmap
    && forall pid | pid in s.procs :: TidyUser(ViewOf(s, pid))
  }

  ghost predicate TidyUser(u: User) {
    BrkInWindow(u) && forall a | a in u.areas :: AreaInWindow(a)
  }

  /** The event is a drop of an image that reaches page p. */
  predicate DropsOver(ev: Event, p: nat) {
    ev.By? && ev.call.UnmapImage? && PageOf(USER_TEXT_BASE) <= p && p * PAGE < ev.call.imageEnd
  }

  /** A call that does not drop it keeps every page outside the two windows. */
  lemma OutsideStays(u: User, call: Call, p: nat)
    requires Owned(u.mem) && TidyUser(u) && !DropsOver(By(0, call), p) && p in u.mem.pt && OutsideWindows(p)
    ensures var m := Do(u, call).user.mem; p in m.pt && m.pt[p] == u.mem.pt[p]
  {
    hide Owned, MapRange, UnmapRange, LoadRanges;
    match call
    case Brk(addr) => BrkPages(u, addr);
    case Mmap(addr, len, prot) =>
      var base := if addr == 0 then u.nextMmap else addr;
      MapRangePages(u.mem, PageOf(base), PagesFor(len), Flags(ProtWrite(prot), !ProtExec(prot)), false);
    case Munmap(addr, len) =>
      UnmapRangePages(u.mem, PageOf(addr), len / PAGE);
      assert forall a | a in u.areas :: AreaInWindow(a);
    case LoadImage(ranges) => LoadRangesPages(u.mem, ranges);
    case UnmapImage(hi) => DropPages(u, hi);
    case MapChildStack => ChildStackPages(u);
  }

  lemma TidyCall(u: User, call: Call)
    requires Owned(u.mem) && TidyUser(u) && u.nextMmap % PAGE == 0 && USER_MMAP_BASE <= u.nextMmap
    ensures var u' := Do(u, call).user;
            TidyUser(u') && u'.nextMmap % PAGE == 0 && USER_MMAP_BASE <= u'.nextMmap
  {
    hide Owned, MapRange, UnmapRange, LoadRanges, Shrink, Grow;
    match call
    case Brk(addr) => BrkPages(u, addr);
    case Mmap(addr, len, prot) =>
      assert PagesFor(len) * PAGE < len + PAGE;
    case Munmap(addr, len) => RetainSome(u.areas, addr, SaturatingEnd(addr, len));
    case _ =>
  }

  lemma {:induction false} RetainSome(areas: seq<VmArea>, addr: nat, end: nat)
    ensures forall a | a in Retain(areas, addr, end) :: a in areas
    decreases |areas|
  {
    if areas != [] {
      RetainSome(areas[1..], addr, end);
    }
  }

  lemma TidyStep(s: Shared, ev: Event)
    requires Owned(s.mem) && Tidy(s)
    ensures Tidy(Step(s, ev))
  {
    hide Owned, Do, TidyUser;
    match ev
    case By(pid, call) =>
      if pid in s.procs {
        TidyCall(ViewOf(s, pid), call);
        SameTidy(s, Step(s, ev), pid);
      }
    case Fork(pid, child, _) =>
      SameTidy(s, Step(s, ev), child);
      if pid in s.procs && child in Step(s, ev).procs && child !in s.procs {
        SameTidyUser(ViewOf(s, pid), ViewOf(Step(s, ev), child));
      }
    case Reap(pid) => SameTidy(s, Step(s, ev), pid);
  }

  lemma SameTidyUser(u: User, u': User)
    requires u'.brkEnd == u.brkEnd && u'.areas == u.areas
    ensures TidyUser(u) <==> TidyUser(u')
  {
  }

  lemma SameTidy(s: Shared, s': Shared, except: nat)
    requires Tidy(s)
    requires forall q | q in s'.procs && q != except :: q in s.procs && s'.procs[q] == s.procs[q]
    ensures forall q | q in s'.procs && q != except :: TidyUser(ViewOf(s', q))
  {
    forall q | q in s'.procs && q != except ensures TidyUser(ViewOf(s', q)) {
      SameTidyUser(ViewOf(s, q), ViewOf(s', q));
    }
  }

  lemma OutsideStep(s: Shared, ev: Event, p: nat)
    requires Owned(s.mem) && Tidy(s) && p in s.mem.pt && OutsideWindows(p) && !DropsOver(ev, p)
    ensures p in Step(s, ev).mem.pt && Step(s, ev).mem.pt[p] == s.mem.pt[p]
  {
    hide Owned, Do, TidyUser;
    match ev
    case By(pid, call) =>
      if pid in s.procs {
        OutsideStays(ViewOf(s, pid), call, p);
      }
    case Fork(pid, _, _) =>
      if pid in s.procs {
        OutsideStays(ViewOf(s, pid), MapChildStack, p);
      }
    case Reap(_) =>
  }

  /** In every run, a page outside heap and mmap window stays mapped as it is until an image is dropped over
      it. */
  lemma {:induction false} OutsideStaysOverRuns(s: Shared, evs: seq<Event>, p: nat)
    requires Owned(s.mem) && Tidy(s) && p in s.mem.pt && OutsideWindows(p)
    requires forall ev | ev in evs :: !DropsOver(ev, p)
    ensures p in Run(s, evs).mem.pt && Run(s, evs).mem.pt[p] == s.mem.pt[p] && Tidy(Run(s, evs))
    decreases |evs|
  {
    hide Owned, Universe, Do, TidyUser, Tidy, DropsOver;
    if evs != [] {
      StepKeeps(s, evs[0]);
      TidyStep(s, evs[0]);
      assert evs[0] in evs;
      OutsideStep(s, evs[0], p);
      OutsideStaysOverRuns(Step(s, evs[0]), evs[1..], p);
    }
  }

  /** In every run at all, the pages below the text base stay mapped: not even dropping an image reaches them. */
  lemma BelowTextStaysOverRuns(s: Shared, evs: seq<Event>, p: nat)
    requires Owned(s.mem) && Tidy(s) && p in s.mem.pt && p < PageOf(USER_TEXT_BASE)
    ensures p in Run(s, evs).mem.pt && Run(s, evs).mem.pt[p] == s.mem.pt[p] && Balanced(s.mem, Run(s, evs).mem)
  {
    hide Owned, Universe, Run, TidyUser, Tidy;
    FramesOwnedOverRuns(s, evs);
    OutsideStaysOverRuns(s, evs, p);
  }

  /** The event loads an image that has page p. */
  ghost predicate LoadsOver(ev: Event, p: nat) {
    ev.By? && ev.call.LoadImage? && exists r :: r in ev.call.ranges && InRange(p, r.first, r.pages)
  }

  /** Nothing but an image load maps a page outside the two windows, the child's page apart. */
  lemma OutsideEmpty(u: User, call: Call, p: nat)
    requires Owned(u.mem) && TidyUser(u) && u.nextMmap % PAGE == 0 && USER_MMAP_BASE <= u.nextMmap
    requires p !in u.mem.pt && OutsideWindows(p) && p != 0x402 && !LoadsOver(By(0, call), p)
    ensures p !in Do(u, call).user.mem.pt
  {
    hide Owned, MapRange, UnmapRange, LoadRanges;
    match call
    case Brk(addr) => BrkPages(u, addr);
    case Mmap(addr, len, prot) => MmapInWindow(u, addr, len, prot, p);
    case Munmap(addr, len) => UnmapRangePages(u.mem, PageOf(addr), len / PAGE);
    case LoadImage(ranges) => LoadRangesPages(u.mem, ranges);
    case UnmapImage(hi) => DropPages(u, hi);
    case MapChildStack => MapRangePages(u.mem, PageOf(CHILD_STACK_LO), 1, HEAP_FLAGS, true);
  }

  lemma MmapInWindow(u: User, addr: u64, len: u64, prot: u64, p: nat)
    requires u.nextMmap % PAGE == 0 && USER_MMAP_BASE <= u.nextMmap && p !in u.mem.pt && OutsideWindows(p)
    ensures p !in MmapSpec(u, addr, len, prot).user.mem.pt
  {
    hide MapRange;
    var base := if addr == 0 then u.nextMmap else addr;
    MapRangePages(u.mem, PageOf(base), PagesFor(len), Flags(ProtWrite(prot), !ProtExec(prot)), false);
  }

  lemma EmptyStep(s: Shared, ev: Event, p: nat)
    requires Owned(s.mem) && Tidy(s) && p !in s.mem.pt && OutsideWindows(p) && p != 0x402 && !LoadsOver(ev, p)
    ensures p !in Step(s, ev).mem.pt
  {
    hide Owned, Do, TidyUser;
    match ev
    case By(pid, call) =>
      if pid in s.procs {
        OutsideEmpty(ViewOf(s, pid), call, p);
      }
    case Fork(pid, _, _) =>
      if pid in s.procs {
        OutsideEmpty(ViewOf(s, pid), MapChildStack, p);
      }
    case Reap(_) =>
  }

  /** In every run, a page outside heap and mmap window other than the child's stays unmapped until an image that has
      it is loaded. */
  lemma {:induction false} EmptyStaysOverRuns(s: Shared, evs: seq<Event>, p: nat)
    requires Owned(s.mem) && Tidy(s) && p !in s.mem.pt && OutsideWindows(p) && p != 0x402
    requires forall ev | ev in evs :: !LoadsOver(ev, p)
    ensures p !in Run(s, evs).mem.pt
    decreases |evs|
  {
    hide Owned, Universe, Do, TidyUser, Tidy, LoadsOver;
    if evs != [] {
      StepKeeps(s, evs[0]);
      TidyStep(s, evs[0]);
      assert evs[0] in evs;
      EmptyStep(s, evs[0], p);
      EmptyStaysOverRuns(Step(s, evs[0]), evs[1..], p);
    }
  }

  /** Page 0x403 lies between the child's stack and the heap. In every run that starts with it unmapped and loads no
      image that has it, a fork can succeed only from a pointer on the parent's stack page, so every fork that succeeds
      leaves the copy where the child's pointer says. */
  lemma ForksMirrorOverRuns(s: Shared, evs: seq<Event>, rsp: u64)
    requires Owned(s.mem) && Tidy(s) && 0x403 !in s.mem.pt && forall ev | ev in evs :: !LoadsOver(ev, 0x403)
    ensures var m := Run(s, evs).mem;
            && (ForkStack.CanPrepare(m, rsp) <==>
                0x401000 <= rsp < 0x402000 && 0x401 in m.pt && ForkStack.WithChildPage(m).1 == Mapped)
            && (ForkStack.CanPrepare(m, rsp) ==> ForkStack.CopyTo(rsp) == ForkStack.ChildRsp(rsp))
  {
    hide Owned, Tidy, Run, LoadsOver, ForkStack.CanPrepare;
    EmptyStaysOverRuns(s, evs, 0x403);
    ForkStack.PrepareExactly(Run(s, evs).mem, rsp);
    if 0x401000 <= rsp < 0x402000 {
      ForkStack.MirrorExactly(rsp);
    }
  }

  /** Once a fork has succeeded, and as long as no image is dropped over the stack page, the child's page is there:
      every further fork copies into that same page, and one from a pointer on the parent's stack page always can. */
  lemma OneChildStack(s: Shared, pid: nat, child: nat, rsp: u64, evs: seq<Event>, next: u64)
    requires Owned(s.mem) && Tidy(s) && pid in s.procs && child !in s.procs && ForkStack.CanPrepare(s.mem, rsp)
    requires forall ev | ev in evs :: !DropsOver(ev, 0x401)
    ensures var m := Run(Step(s, Fork(pid, child, rsp)), evs).mem;
            && 0x402 in m.pt && ForkStack.WithChildPage(m) == (m, Mapped)
            && (0x401000 <= next < 0x402000 ==> ForkStack.CanPrepare(m, next))
  {
    hide Owned, Universe, Tidy, Run;
    var ev := Fork(pid, child, rsp);
    var s1 := Step(s, ev);
    StepKeeps(s, ev);
    TidyStep(s, ev);
    ForkStack.PrepareExactly(s.mem, rsp);
    OutsideStep(s, ev, 0x401);
    ForkStack.ChildPageThere(s.mem);
    hide Step, ForkStack.CanPrepare;
    OutsideStaysOverRuns(s1, evs, 0x401);
    OutsideStaysOverRuns(s1, evs, 0x402);
    ForkStack.PrepareExactly(Run(s1, evs).mem, next);
  }

  // ----- pages that nobody records -----

  /** A mapped page of the mmap window that no process's area covers. */
  ghost predicate Leaked(s: Shared, p: nat) {
    p in s.mem.pt && InMmapWindow(p) && forall pid | pid in s.procs :: !Covered(s.procs[pid].areas, p)
  }

  /** A call by a process that does not cover the page leaves it mapped and uncovered, unless it drops it. */
  lemma CallKeepsLeak(u: User, call: Call, p: nat)
    requires Owned(u.mem) && TidyUser(u) && u.nextMmap % PAGE == 0 && USER_MMAP_BASE <= u.nextMmap
    requires p in u.mem.pt && InMmapWindow(p) && !Covered(u.areas, p) && !DropsOver(By(0, call), p)
    ensures var u' := Do(u, call).user; p in u'.mem.pt && !Covered(u'.areas, p)
  {
    hide Owned, MapRange, UnmapRange, LoadRanges;
    match call
    case Brk(addr) => BrkPages(u, addr);
    case Mmap(addr, len, prot) => MmapKeepsLeak(u, addr, len, prot, p);
    case Munmap(addr, len) => MunmapKeepsLeak(u, addr, len, p);
    case LoadImage(ranges) => LoadRangesPages(u.mem, ranges);
    case UnmapImage(hi) => DropPages(u, hi);
    case MapChildStack => ChildStackPages(u);
  }

  lemma MmapKeepsLeak(u: User, addr: u64, len: u64, prot: u64, p: nat)
    requires p in u.mem.pt && !Covered(u.areas, p)
    ensures var u' := MmapSpec(u, addr, len, prot).user; p in u'.mem.pt && !Covered(u'.areas, p)
  {
    hide MapRange;
    var base := if addr == 0 then u.nextMmap else addr;
    MapRangePages(u.mem, PageOf(base), PagesFor(len), Flags(ProtWrite(prot), !ProtExec(prot)), false);
    var u' := MmapSpec(u, addr, len, prot).user;
    forall a | a in u'.areas ensures !InRange(p, PageOf(a.start), a.pages) {
      assert a in u.areas || u'.areas != u.areas;
    }
  }

  lemma MunmapKeepsLeak(u: User, addr: u64, len: u64, p: nat)
    requires Owned(u.mem) && TidyUser(u) && p in u.mem.pt && InMmapWindow(p) && !Covered(u.areas, p)
    ensures var u' := MunmapSpec(u, addr, len).user; p in u'.mem.pt && !Covered(u'.areas, p)
  {
    hide Owned, UnmapRange, Retain;
    var end := SaturatingEnd(addr, len);
    RetainSome(u.areas, addr, end);
    UnmapRangePages(u.mem, PageOf(addr), len / PAGE);
    if a :| a in u.areas && Matches(a, addr, end) {
      assert AreaInWindow(a);
      assert InRange(p, PageOf(addr), len / PAGE) ==> InRange(p, PageOf(a.start), a.pages);
    }
  }

  lemma LeakStep(s: Shared, ev: Event, p: nat)
    requires Owned(s.mem) && Tidy(s) && Leaked(s, p) && !DropsOver(ev, p)
    ensures Leaked(Step(s, ev), p)
  {
    hide Owned, Do, TidyUser;
    match ev
    case By(pid, call) =>
      if pid in s.procs {
        CallKeepsLeak(ViewOf(s, pid), call, p);
      }
    case Fork(pid, _, _) =>
      if pid in s.procs {
        CallKeepsLeak(ViewOf(s, pid), MapChildStack, p);
      }
    case Reap(_) =>
  }

  /** In every run of all processes, a mapped page of the mmap window that nobody's area covers stays that way, for
      all the calls, forks, exits and reaps that follow, until an image is dropped over it. */
  lemma {:induction false} LeaksStayOverRuns(s: Shared, evs: seq<Event>, p: nat)
    requires Owned(s.mem) && Tidy(s) && Leaked(s, p) && forall ev | ev in evs :: !DropsOver(ev, p)
    ensures Leaked(Run(s, evs), p)
    decreases |evs|
  {
    hide Owned, Universe, Leaked, Tidy, Step, DropsOver;
    if evs != [] {
      StepKeeps(s, evs[0]);
      TidyStep(s, evs[0]);
      assert evs[0] in evs;
      LeakStep(s, evs[0], p);
      LeaksStayOverRuns(Step(s, evs[0]), evs[1..], p);
    }
  }

  /** The mapped pages of a process's areas that no other process covers are leaked once it is reaped. */
  lemma ReapLeaks(s: Shared, pid: nat, p: nat)
    requires pid in s.procs && p in s.mem.pt && InMmapWindow(p)
    ensures Leaked(Step(s, Reap(pid)), p) <==> forall q | q in s.procs && q != pid :: !Covered(s.procs[q].areas, p)
  {
    hide Covered;
    var s' := Step(s, Reap(pid));
    assert forall q | q in s'.procs :: q in s.procs && q != pid && s'.procs[q] == s.procs[q];
    assert forall q | q in s.procs && q != pid :: q in s'.procs && s'.procs[q] == s.procs[q];
  }

  // ----- the bump pointer -----

  /** The pages that an event asks for at an address of the kernel's choice. */
  function Asks(s: Shared, ev: Event): nat {
    if ev.By? && ev.pid in s.procs && ev.call.Mmap? && ev.call.addr == 0 && 0 < ev.call.len <= 0x70000
    then (ev.call.len + 4095) / 4096 else 0
  }

  /** The pages that it is granted there: an area is recorded. */
  ghost function Grants(s: Shared, ev: Event): nat {
    if ev.By? && ev.pid in s.procs && Do(ViewOf(s, ev.pid), ev.call).user.areas != s.procs[ev.pid].areas
    then Asks(s, ev) else 0
  }

  ghost function Asked(s: Shared, evs: seq<Event>): nat
    decreases |evs|
  {
    if evs == [] then 0 else Asks(s, evs[0]) + Asked(Step(s, evs[0]), evs[1..])
  }

  ghost function Granted(s: Shared, evs: seq<Event>): nat
    decreases |evs|
  {
    if evs == [] then 0 else Grants(s, evs[0]) + Granted(Step(s, evs[0]), evs[1..])
  }

  lemma BumpStep(s: Shared, ev: Event)
    ensures Step(s, ev).nextMmap == s.nextMmap + 4096 * Asks(s, ev)
    ensures Grants(s, ev) > 0 ==> s.nextMmap + 4096 * Grants(s, ev) <= 0x480000
  {
    hide MapRange, UnmapRange, LoadRanges, Shrink, Grow, ForkStack.CanPrepare;
  }

  /** In every run of all processes the bump pointer has moved by exactly the pages asked for without an address,
      whether they were granted or not; nothing takes it back. */
  lemma {:induction false} BumpOverRuns(s: Shared, evs: seq<Event>)
    ensures Run(s, evs).nextMmap == s.nextMmap + 4096 * Asked(s, evs)
    decreases |evs|
  {
    hide Step, Asks;
    if evs != [] {
      BumpStep(s, evs[0]);
      BumpOverRuns(Step(s, evs[0]), evs[1..]);
    }
  }

  /** So, while the pointer starts inside the window, what all processes together are ever granted there fits between
      the start and the end: 112 pages from boot. */
  lemma {:induction false} GrantsFitWindow(s: Shared, evs: seq<Event>)
    ensures Granted(s, evs) > 0 ==> s.nextMmap + 4096 * Granted(s, evs) <= 0x480000
    ensures s.nextMmap == 0x410000 ==> Granted(s, evs) <= 112
    decreases |evs|
  {
    hide Step, Asks, Grants;
    if evs != [] {
      BumpStep(s, evs[0]);
      GrantsAll(s, evs[0]);
      GrantsFitWindow(Step(s, evs[0]), evs[1..]);
    }
  }

  lemma GrantsAll(s: Shared, ev: Event)
    ensures Grants(s, ev) == 0 || Grants(s, ev) == Asks(s, ev)
  {
  }

  /** Once 112 pages have been asked for since boot, no request without an address succeeds any more, for any process,
      however much has been unmapped. */
  lemma WindowSpent(s: Shared, evs: seq<Event>, pid: nat, len: u64, prot: u64)
    requires s.nextMmap == 0x410000 && Asked(s, evs) >= 112 && pid in Run(s, evs).procs
    ensures var o := Do(ViewOf(Run(s, evs), pid), Mmap(0, len, prot));
            && o.ret == (if 0 < len <= 0x70000 then 0x1_0000_0000_0000_0000 - 12 else 0x1_0000_0000_0000_0000 - 22)
            && o.user.mem == Run(s, evs).mem && o.user.areas == Run(s, evs).procs[pid].areas
  {
    hide Run, Asked, MapArea;
    BumpOverRuns(s, evs);
  }

  // ----- what one process's call does to the others -----

  ghost predicate AllInv(s: Shared) {
    forall pid | pid in s.procs :: UserInv(ViewOf(s, pid))
  }

  /** The call unmaps page p, if p is mapped. */
  ghost predicate Removes(u: User, call: Call, p: nat) {
    match call
    case Brk(addr) => USER_BRK_BASE <= addr && addr <= p * PAGE < u.brkEnd
    case Munmap(addr, len) =>
      (exists a :: a in u.areas && Matches(a, addr, addr + len)) && InRange(p, PageOf(addr), len / PAGE)
    case UnmapImage(hi) => PageOf(USER_TEXT_BASE) <= p && p * PAGE < hi
    case _ => false
  }

  /** The page belongs to the process's heap or to one of its areas. */
  ghost predicate Uses(u: User, p: nat) {
    (PageOf(USER_BRK_BASE) <= p && p * PAGE < u.brkEnd) || Covered(u.areas, p)
  }

  /** What a call does to the page table, as the other processes see it. */
  ghost predicate CallEffect(u: User, call: Call, u': User) {
    && (forall p | p in u.mem.pt && !Removes(u, call, p) :: p in u'.mem.pt && u'.mem.pt[p] == u.mem.pt[p])
    && (forall p | p in u.mem.pt && Removes(u, call, p) :: p !in u'.mem.pt)
    && (forall p | InBrkWindow(p) && p in u'.mem.pt && p !in u.mem.pt :: u'.mem.pt[p].flags == HEAP_FLAGS)
    && u'.nextMmap % PAGE == 0 && USER_MMAP_BASE <= u'.nextMmap
  }

  lemma CallHasEffect(u: User, call: Call)
    requires UserInv(u) && SparesHeap(u, call)
    ensures CallEffect(u, call, Do(u, call).user)
  {
    hide Owned, HeapMapped, AreaMapped, LoadRanges, MapRange, UnmapRange, Universe, BrkSpec, MmapSpec, MunmapSpec;
    match call
    case Brk(addr) => BrkHasEffect(u, addr);
    case Mmap(addr, len, prot) => MmapHasEffect(u, addr, len, prot);
    case Munmap(addr, len) => MunmapHasEffect(u, addr, len);
    case LoadImage(ranges) => LoadHasEffect(u, ranges);
    case UnmapImage(hi) => DropPages(u, hi);
    case MapChildStack => ChildStackPages(u);
  }

  lemma BrkHasEffect(u: User, addr: u64)
    requires UserInv(u)
    ensures CallEffect(u, Brk(addr), BrkSpec(u, addr).user)
  {
    hide Owned, HeapMapped, AreaMapped, Shrink, Grow;
    if USER_BRK_BASE <= addr < u.brkEnd {
      ShrinkPages(u.mem, addr, u.brkEnd);
    } else if u.brkEnd < addr <= USER_BRK_LIMIT {
      GrowPages(u.mem, u.brkEnd, addr);
    }
  }

  lemma MmapHasEffect(u: User, addr: u64, len: u64, prot: u64)
    requires UserInv(u)
    ensures CallEffect(u, Mmap(addr, len, prot), MmapSpec(u, addr, len, prot).user)
  {
    hide Owned, HeapMapped, AreaMapped, MapRange;
    var base := if addr == 0 then u.nextMmap else addr;
    MapRangePages(u.mem, PageOf(base), PagesFor(len), Flags(ProtWrite(prot), !ProtExec(prot)), false);
  }

  lemma MunmapHasEffect(u: User, addr: u64, len: u64)
    requires UserInv(u)
    ensures CallEffect(u, Munmap(addr, len), MunmapSpec(u, addr, len).user)
  {
    hide Owned, HeapMapped, AreaMapped, MunmapSpec, FramesIn;
    var i := MunmapExact(u, addr, len);
    if MunmapSpec(u, addr, len).ret == 0 {
      var a := u.areas[i];
      assert AreaInWindow(a) && len / PAGE == a.pages;
    }
  }

  lemma LoadHasEffect(u: User, ranges: seq<PageRange>)
    requires UserInv(u) && SparesHeap(u, LoadImage(ranges))
    ensures CallEffect(u, LoadImage(ranges), Do(u, LoadImage(ranges)).user)
  {
    hide Owned, HeapMapped, AreaMapped, LoadRanges, Reaches;
    LoadRangesPages(u.mem, ranges);
    var m' := LoadRanges(u.mem, ranges).0;
    forall p | InBrkWindow(p) && p in m'.pt && p !in u.mem.pt ensures m'.pt[p].flags == HEAP_FLAGS {
      LoadReaches(u.mem, ranges, p);
      var i: nat :| Reaches(u.mem, ranges, i, p);
    }
  }

  /** Another process keeps its invariant if and only if the call removes no page it uses. */
  lemma BystanderExactly(u: User, call: Call, u': User, v: User, v': User)
    requires CallEffect(u, call, u') && UserInv(v) && v.mem == u.mem && Owned(u'.mem)
    requires v' == User(u'.mem, v.brkEnd, v.areas, u'.nextMmap, u'.nextId)
    ensures UserInv(v') <==> forall p: nat | Uses(v, p) :: !Removes(u, call, p)
  {
    hide Owned, Removes;
    if forall p: nat | Uses(v, p) :: !Removes(u, call, p) {
      forall a, p | a in v.areas && InRange(p, PageOf(a.start), a.pages)
        ensures p in v'.mem.pt && v'.mem.pt[p].flags == a.PageFlags()
      {
        assert AreaMapped(v.mem, a) && Covered(v.areas, p) && Uses(v, p);
      }
      forall p: nat | PageOf(USER_BRK_BASE) <= p && p * PAGE < v.brkEnd ensures p in v'.mem.pt {
        assert Uses(v, p);
      }
    } else {
      var p: nat :| Uses(v, p) && Removes(u, call, p);
      if Covered(v.areas, p) {
        var a :| a in v.areas && InRange(p, PageOf(a.start), a.pages);
        assert AreaMapped(v.mem, a) && !AreaMapped(v'.mem, a);
      }
    }
  }

  /** The call spares its own process's memory and removes no page that another process uses. */
  ghost predicate SparesAll(s: Shared, ev: Event) {
    match ev
    case By(pid, call) =>
      pid in s.procs ==>
        && SparesHeap(ViewOf(s, pid), call)
        && forall q, p: nat | q in s.procs && q != pid && Uses(ViewOf(s, q), p) :: !Removes(ViewOf(s, pid), call, p)
    case _ => true
  }

  /** An event keeps every process's memory invariant if and only if it spares them all. After a fork the two processes
      record the same areas, so whichever of them unmaps one breaks the other. */
  lemma AllInvExactly(s: Shared, ev: Event)
    requires AllInv(s)
    ensures AllInv(Step(s, ev)) <==> SparesAll(s, ev)
  {
    hide UserInv, Do, SparesHeap, Removes, Uses, CallEffect;
    match ev
    case By(pid, call) =>
      if pid in s.procs {
        CallExactlyForAll(s, pid, call);
      }
    case Fork(pid, child, rsp) =>
      if pid in s.procs && child !in s.procs {
        ForkKeepsAll(s, pid, child, rsp);
      }
    case Reap(pid) =>
      forall q | q in Step(s, ev).procs ensures UserInv(ViewOf(Step(s, ev), q)) {
        assert ViewOf(Step(s, ev), q) == ViewOf(s, q);
      }
  }

  lemma CallExactlyForAll(s: Shared, pid: nat, call: Call)
    requires AllInv(s) && pid in s.procs
    ensures AllInv(Step(s, By(pid, call))) <==> SparesAll(s, By(pid, call))
  {
    hide UserInv, Do, SparesHeap, Removes, Uses, CallEffect, Owned;
    var u := ViewOf(s, pid);
    var u' := Do(u, call).user;
    var s' := Step(s, By(pid, call));
    assert ViewOf(s', pid) == u';
    InvExactly(u, call);
    InvOwned(u);
    CallKeeps(u, call);
    if SparesHeap(u, call) {
      CallHasEffect(u, call);
      forall q | q in s.procs && q != pid
        ensures UserInv(ViewOf(s', q)) <==> forall p: nat | Uses(ViewOf(s, q), p) :: !Removes(u, call, p)
      {
        BystanderExactly(u, call, u', ViewOf(s, q), ViewOf(s', q));
      }
    }
  }

  lemma ForkKeepsAll(s: Shared, pid: nat, child: nat, rsp: u64)
    requires AllInv(s) && pid in s.procs && child !in s.procs
    ensures AllInv(Step(s, Fork(pid, child, rsp)))
  {
    hide UserInv, Do, SparesHeap, Uses, CallEffect, Owned;
    var u := ViewOf(s, pid);
    var u' := Do(u, MapChildStack).user;
    var s' := Step(s, Fork(pid, child, rsp));
    InvOwned(u);
    CallKeeps(u, MapChildStack);
    ChildStackEffect(u);
    forall q | q in s'.procs ensures UserInv(ViewOf(s', q)) {
      var from := if q in s.procs then q else pid;
      BystanderExactly(u, MapChildStack, u', ViewOf(s, from), ViewOf(s', q));
    }
  }

  lemma ChildStackEffect(u: User)
    requires UserInv(u)
    ensures var u' := Do(u, MapChildStack).user;
            CallEffect(u, MapChildStack, u') && u'.nextMmap == u.nextMmap && u'.nextId == u.nextId
  {
    hide UserInv;
    SparesChildStack(u);
    CallHasEffect(u, MapChildStack);
    ChildStackPages(u);
  }

  lemma SparesChildStack(u: User)
    ensures SparesHeap(u, MapChildStack)
  {
  }

  ghost predicate SparingAll(s: Shared, evs: seq<Event>)
    decreases |evs|
  {
    evs != [] ==> SparesAll(s, evs[0]) && SparingAll(Step(s, evs[0]), evs[1..])
  }

  /** Over every run in which each event spares them all, every process's heap and areas stay in order, and whatever
      its heap and mmap checks accept is mapped as they promise. */
  lemma {:induction false} AllInvOverRuns(s: Shared, evs: seq<Event>)
    requires AllInv(s) && SparingAll(s, evs)
    ensures AllInv(Run(s, evs))
    decreases |evs|
  {
    hide AllInv, Step, SparesAll;
    if evs != [] {
      AllInvExactly(s, evs[0]);
      AllInvOverRuns(Step(s, evs[0]), evs[1..]);
    }
  }

  lemma AccessChecksSoundForAll(s: Shared, evs: seq<Event>, pid: nat, addr: nat, end: nat)
    requires AllInv(s) && SparingAll(s, evs) && pid in Run(s, evs).procs
    ensures var u := ViewOf(Run(s, evs), pid);
            && (CoversBrk(u.brkEnd, addr, end) ==> Accessible(u.mem, addr, end, true))
            && (CoversMmap(u.areas, false, addr, end) ==> Accessible(u.mem, addr, end, false))
            && (CoversMmap(u.areas, true, addr, end) ==> Accessible(u.mem, addr, end, true))
  {
    hide Run, SparingAll, UserInv;
    AllInvOverRuns(s, evs);
    AcceptedIsAccessible(ViewOf(Run(s, evs), pid), addr, end);
  }

  // ----- a fork after which the invariant breaks -----

  /** When a process unmaps an area, every other process that records the same area has a range that its check accepts
      and that is not mapped. */
  lemma MunmapBreaksOthers(s: Shared, pid: nat, q: nat, a: VmArea, len: u64)
    requires AllInv(s) && pid in s.procs && q in s.procs && pid != q
    requires a in s.procs[pid].areas && a in s.procs[q].areas && a.start + len == a.End()
    ensures var s' := Step(s, By(pid, Munmap(a.start, len)));
            && q in s'.procs && CoversMmap(ViewOf(s', q).areas, false, a.start, a.End())
            && PageOf(a.start) !in s'.mem.pt
  {
    var u := ViewOf(s, pid);
    assert UserInv(u);
    hide Owned, HeapMapped, MunmapSpec, FramesIn;
    assert AreaInWindow(a) && Matches(a, a.start, a.start + len);
    var i := MunmapExact(u, a.start, len);
    assert InRange(PageOf(a.start), PageOf(a.start), u.areas[i].pages) by {
      assert AreaInWindow(u.areas[i]);
    }
  }

  /** The first process maps a page, forks, and its child unmaps the page. */
  function ForkRun(): seq<Event> {
    [By(1, Mmap(0, PAGE, 0)), Fork(1, 2, 0x401800), By(2, Munmap(USER_MMAP_BASE, PAGE))]
  }

  /** In every boot with frames for this run, the parent's check then accepts a page that is not mapped. */
  lemma ForkedMunmapBreaksParent(u: User)
    requires Boot(u) && 0x401 in u.mem.pt && |u.mem.free| >= 2 + WindowTables(u.mem)
    ensures var s := Run(Shared(u.mem, map[1 := Own(u.brkEnd, u.areas)], u.nextMmap, u.nextId), ForkRun());
            && 1 in s.procs && CoversMmap(s.procs[1].areas, false, USER_MMAP_BASE, USER_MMAP_BASE + PAGE)
            && PageOf(USER_MMAP_BASE) !in s.mem.pt
  {
    hide Run, Boot, WindowTables, Owned;
    var s, area := AfterForkRun(u);
    assert s.procs[1].areas[0] == area;
  }

  /** The parent then unmaps the page itself: though it is gone, the call returns 0 and drops the area. */
  lemma ParentUnmapsToo(u: User)
    requires Boot(u) && 0x401 in u.mem.pt && |u.mem.free| >= 2 + WindowTables(u.mem)
    ensures var s := Run(Shared(u.mem, map[1 := Own(u.brkEnd, u.areas)], u.nextMmap, u.nextId), ForkRun());
            var s' := Step(s, By(1, Munmap(0x410000, 4096)));
            && 1 in s.procs && |s.procs[1].areas| == 1
            && 1 in s'.procs && s'.procs[1].areas == [] && s'.mem.pt == s.mem.pt
            && Do(ViewOf(s, 1), Munmap(0x410000, 4096)).ret == 0
  {
    hide Step, Boot, UserInv, WindowTables, Owned, MunmapSpec;
    var s, area := AfterForkRun(u);
    var v := ViewOf(s, 1);
    assert v.areas[0] == area;
    MemoryResults.MunmapReturns(v, 0x410000, 4096);
    assert MemoryResults.Spans(area, 0x410000, 4096);
    MemoryResults.AllGo([area], 0x410000, 4096);
    StepIs(s, Munmap(0x410000, 4096));
    assert forall p | p in s.mem.pt :: !(0x410000 <= 4096 * p < 0x411000);
  }

  /** Instead it may map the page again at that address. It then records the page twice, and one munmap drops both. */
  lemma MappedTwice(u: User)
    requires Boot(u) && 0x401 in u.mem.pt && |u.mem.free| >= 2 + WindowTables(u.mem)
    ensures var s := Run(Shared(u.mem, map[1 := Own(u.brkEnd, u.areas)], u.nextMmap, u.nextId), ForkRun());
            var s1 := Step(s, By(1, Mmap(0x410000, 4096, 0)));
            var s2 := Step(s1, By(1, Munmap(0x410000, 4096)));
            && 1 in s1.procs && |s1.procs[1].areas| == 2
            && MemoryResults.SpannedTwice(s1.procs[1].areas, 0x410000, 4096)
            && 1 in s2.procs && s2.procs[1].areas == []
  {
    hide Step, Run, Boot, UserInv, WindowTables, Owned, MunmapSpec, MmapSpec, Absent, MemoryResults.SpannedTwice,
         AreaInWindow;
    var s, area := AfterForkRun(u);
    var v := ViewOf(s, 1);
    FreePageMaps(v);
    StepIs(s, Mmap(0x410000, 4096, 0));
    var s1 := Step(s, By(1, Mmap(0x410000, 4096, 0)));
    StepKeeps(s, By(1, Mmap(0x410000, 4096, 0)));
    var again := VmArea(v.nextId, 0x410000, 1, false, false);
    assert [area] + [again] == [area, again];
    TwoAreasGo(ViewOf(s1, 1), area, again);
    StepIs(s1, Munmap(0x410000, 4096));
  }

  lemma TwoAreasGo(u: User, area: VmArea, again: VmArea)
    requires Owned(u.mem) && u.areas == [area, again] && AreaInWindow(area)
    requires area.start == again.start == 0x410000 && area.pages == again.pages == 1
    ensures MemoryResults.SpannedTwice(u.areas, 0x410000, 4096)
    ensures MunmapSpec(u, 0x410000, 4096).user.areas == []
  {
    hide Owned, MunmapSpec;
    MemoryResults.MunmapReturns(u, 0x410000, 4096);
    assert MemoryResults.Spans(u.areas[0], 0x410000, 4096) && MemoryResults.Spans(u.areas[1], 0x410000, 4096);
    MemoryResults.AllGo(u.areas, 0x410000, 4096);
  }

  lemma StepIs(s: Shared, call: Call)
    requires 1 in s.procs
    ensures Step(s, By(1, call)) == Back(s, 1, Do(ViewOf(s, 1), call).user)
    ensures call.Munmap? ==> Do(ViewOf(s, 1), call) == MunmapSpec(ViewOf(s, 1), call.addr, call.len)
    ensures call.Mmap? ==> Do(ViewOf(s, 1), call) == MmapSpec(ViewOf(s, 1), call.addr, call.len, call.prot)
  {
    hide MunmapSpec, MmapSpec;
  }

  /** With a frame free and its tables there, an unmapped page of the window can be mapped. */
  lemma FreePageMaps(u: User)
    requires 0x410 !in u.mem.pt && u.mem.free != {} && Absent(u.mem, 0x410) == {}
    ensures var o := MmapSpec(u, 0x410000, 4096, 0);
            o.mapping == Mapped && o.user.areas == u.areas + [VmArea(u.nextId, 0x410000, 1, false, false)]
  {
    hide AllocAndMap, Absent, MapRange, MmapSpec, Path;
    var flags := Flags(false, true);
    assert |u.mem.free| > 0 && |Absent(u.mem, 0x410)| == 0;
    AllocAndMapExactly(u.mem, 0x410, flags);
    MapRangeSplits(u.mem, 0x410, 1, 0, flags, false);
    MemoryResults.MmapReturns(u, 0x410000, 4096, 0, 1);
  }

  /** The state after the fork run, as far as the parent's next call is concerned. */
  lemma AfterForkRun(u: User) returns (s: Shared, area: VmArea)
    requires Boot(u) && 0x401 in u.mem.pt && |u.mem.free| >= 2 + WindowTables(u.mem)
    ensures s == Run(Shared(u.mem, map[1 := Own(u.brkEnd, u.areas)], u.nextMmap, u.nextId), ForkRun())
    ensures 1 in s.procs && s.procs[1].areas == [area]
    ensures AreaInWindow(area) && area.start == 0x410000 && area.pages == 1
    ensures Owned(s.mem) && 0x410 !in s.mem.pt && s.mem.free != {} && Absent(s.mem, 0x410) == {}
  {
    hide Step, Boot, UserInv, WindowTables;
    var evs := ForkRun();
    var s0 := Shared(u.mem, map[1 := Own(u.brkEnd, u.areas)], u.nextMmap, u.nextId);
    var s1: Shared;
    s1, area := FirstMmap(u);
    var s2 := Step(s1, evs[1]);
    StackSurvives(u);
    ForkSucceeds(s1);
    assert AllInv(s2) by {
      hide AllInv, SparesAll;
      AllInvExactly(s1, evs[1]);
      SparesFork(s1, 1, 2);
    }
    MunmapBreaksOthers(s2, 2, 1, area, PAGE);
    s := Step(s2, evs[2]);
    assert evs[1..] == [evs[1], evs[2]] && evs[1..][1..] == [evs[2]] && evs[1..][1..][1..] == [];
    assert Run(s0, evs) == Run(s1, evs[1..]) == Run(s2, evs[1..][1..]) == s;
    ChildUnmaps(s1, s2, area);
  }

  /** The child's munmap frees the page's frame and leaves the tables. */
  lemma ChildUnmaps(s1: Shared, s2: Shared, area: VmArea)
    requires AllInv(s1) && AllInv(s2) && s1.procs.Keys == {1} && s1.procs[1].areas == [area]
    requires s2 == Step(s1, Fork(1, 2, 0x401800)) && s2.procs == s1.procs[2 := s1.procs[1]]
    requires area.start == USER_MMAP_BASE && area.pages == 1 && Absent(s1.mem, PageOf(USER_MMAP_BASE)) == {}
    ensures var s := Step(s2, By(2, Munmap(USER_MMAP_BASE, PAGE)));
            && 1 in s.procs && s.procs[1] == s1.procs[1] && AreaInWindow(area)
            && Owned(s.mem) && 0x410 !in s.mem.pt && s.mem.free != {} && Absent(s.mem, 0x410) == {}
  {
    hide UserInv, Step, Do, Absent, MunmapSpec, Owned;
    var v := ViewOf(s2, 2);
    assert v.areas == [area];
    ForkKeepsTables(s1);
    OneAreaUnmapped(v, area);
    OneProcessMoves(s2, 2, Munmap(USER_MMAP_BASE, PAGE));
    MunmapIs(v);
    InvOwned(v);
    StepKeeps(s2, By(2, Munmap(USER_MMAP_BASE, PAGE)));
    var s := Step(s2, By(2, Munmap(USER_MMAP_BASE, PAGE)));
    SameAbsent(v.mem, s.mem);
  }

  lemma OneAreaUnmapped(u: User, area: VmArea)
    requires UserInv(u) && u.areas == [area] && area.start == USER_MMAP_BASE && area.pages == 1
    ensures var m := MunmapSpec(u, USER_MMAP_BASE, PAGE).user.mem;
            AreaInWindow(area) && 0x410 !in m.pt && m.free != {} && m.tables == u.mem.tables
  {
    hide Owned, HeapMapped, MunmapSpec;
    assert u.areas[0] == area && AreaInWindow(area) && AreaMapped(u.mem, area);
    assert InRange(0x410, PageOf(area.start), area.pages);
    MemoryResults.MunmapReturns(u, USER_MMAP_BASE, PAGE);
    assert area in u.areas && MemoryResults.Spans(area, USER_MMAP_BASE, PAGE);
    assert u.mem.pt[0x410].frame in MunmapSpec(u, USER_MMAP_BASE, PAGE).user.mem.free;
  }

  lemma MunmapIs(u: User)
    ensures Do(u, Munmap(USER_MMAP_BASE, PAGE)) == MunmapSpec(u, USER_MMAP_BASE, PAGE)
  {
    hide MunmapSpec;
  }

  lemma SameAbsent(m: Mem, m': Mem)
    requires m'.tables.Keys >= m.tables.Keys && Absent(m, 0x410) == {}
    ensures Absent(m', 0x410) == {}
  {
    hide Path;
  }

  lemma ForkKeepsTables(s: Shared)
    requires 1 in s.procs && 2 !in s.procs && Absent(s.mem, 0x410) == {}
    ensures Absent(Step(s, Fork(1, 2, 0x401800)).mem, 0x410) == {}
  {
    hide AllocAndMap, Absent, ForkStack.CanPrepare;
    AllocAndMapPages(s.mem, 0x402, HEAP_FLAGS);
    var m' := Step(s, Fork(1, 2, 0x401800)).mem;
    assert TablesKept(s.mem, m');
    SameAbsent(s.mem, m');
  }

  /** The mmap of the run leaves the stack page alone. */
  lemma StackSurvives(u: User)
    requires Boot(u) && 0x401 in u.mem.pt
    ensures 0x401 in MmapSpec(u, 0, PAGE, 0).user.mem.pt
  {
    hide Owned, Do;
    OutsideStays(u, Mmap(0, PAGE, 0), 0x401);
    assert Do(u, Mmap(0, PAGE, 0)) == MmapSpec(u, 0, PAGE, 0) by {
      MmapIs(u);
    }
  }

  lemma MmapIs(u: User)
    ensures Do(u, Mmap(0, PAGE, 0)) == MmapSpec(u, 0, PAGE, 0)
  {
  }

  lemma SparesFork(s: Shared, pid: nat, child: nat)
    ensures SparesAll(s, Fork(pid, child, 0x401800))
  {
  }

  /** The mmap of the run: one page at the base of the window, with its tables in place and a frame left over. */
  lemma FirstMmap(u: User) returns (s1: Shared, area: VmArea)
    requires Boot(u) && |u.mem.free| >= 2 + WindowTables(u.mem)
    ensures var s0 := Shared(u.mem, map[1 := Own(u.brkEnd, u.areas)], u.nextMmap, u.nextId);
            s1 == Step(s0, By(1, Mmap(0, PAGE, 0)))
    ensures AllInv(s1) && s1.procs == map[1 := Own(u.brkEnd, [area])]
    ensures area.start == USER_MMAP_BASE && area.pages == 1
    ensures s1.mem == MmapSpec(u, 0, PAGE, 0).user.mem
    ensures |s1.mem.free| >= 1 && Absent(s1.mem, PageOf(USER_MMAP_BASE)) == {}
  {
    hide UserInv, MmapSpec, WindowTables, StopsHalfway, WindowExact, HeapExact, Absent;
    BootMeetsInvariants(u);
    var s0 := Shared(u.mem, map[1 := Own(u.brkEnd, u.areas)], u.nextMmap, u.nextId);
    s1 := Step(s0, By(1, Mmap(0, PAGE, 0)));
    MmapExactly(u, 0, PAGE, 0);
    MmapResult(u, 0, PAGE, 0);
    MmapKeepsInv(u, 0, PAGE, 0);
    area := VmArea(u.nextId, USER_MMAP_BASE, 1, ProtWrite(0), ProtExec(0));
    assert ViewOf(s0, 1) == u;
    MmapMemory(u);
    assert MmapTarget(u, 0, PAGE) == Some(USER_MMAP_BASE) && PagesFor(PAGE) == 1;
    assert MmapSpec(u, 0, PAGE, 0).user.areas == [area];
    assert s1.procs == map[1 := Own(u.brkEnd, [area])];
    assert ViewOf(s1, 1) == MmapSpec(u, 0, PAGE, 0).user;
  }

  lemma MmapMemory(u: User)
    requires Boot(u) && |u.mem.free| >= 2 + WindowTables(u.mem)
    ensures var u' := MmapSpec(u, 0, PAGE, 0).user;
            && u'.brkEnd == u.brkEnd && |u'.mem.free| >= 1 && Absent(u'.mem, PageOf(USER_MMAP_BASE)) == {}
  {
    hide MapRange, Owned, WindowTables, Demand, Missing, TablesOf;
    var m, page := u.mem, PageOf(USER_MMAP_BASE);
    var flags := Flags(ProtWrite(0), !ProtExec(0));
    MmapExactly(u, 0, PAGE, 0);
    assert MmapSpec(u, 0, PAGE, 0).user.mem == MapRange(m, page, 1, flags, false).0;
    AreaFitsExactly(m, page, 1, flags);
    MapRangeTakes(m, page, 1, flags, false);
    WindowDemand(m, page, 1);
    OneMissing(m, page);
    OnePath(page);
  }

  lemma OneMissing(m: Mem, page: nat)
    requires page !in m.pt
    ensures Missing(m.pt, page, 1) == {page} && |Missing(m.pt, page, 1)| == 1
  {
    assert Missing(m.pt, page, 1) == {page};
  }

  lemma OnePath(page: nat)
    ensures Path(page) <= TablesOf({page})
  {
    hide Path;
  }

  lemma ForkSucceeds(s: Shared)
    requires AllInv(s) && s.procs.Keys == {1} && 0x401 in s.mem.pt && |s.mem.free| >= 1
    requires Absent(s.mem, PageOf(USER_MMAP_BASE)) == {}
    ensures Step(s, Fork(1, 2, 0x401800)).procs == s.procs[2 := s.procs[1]]
  {
    hide MapRange, UserInv, Demand, Missing, Absent;
    var page := PageOf(CHILD_STACK_LO);
    MapRangeExactly(s.mem, page, 1, HEAP_FLAGS, true);
    ForkStack.PrepareExactly(s.mem, 0x401800);
    hide ForkStack.CanPrepare;
    DemandOfOne(s.mem, page, PageOf(USER_MMAP_BASE));
  }

  lemma DemandOfOne(m: Mem, page: nat, other: nat)
    requires page / 512 == other / 512 && Absent(m, other) == {}
    ensures Demand(m, Missing(m.pt, page, 1)) <= 1
  {
    hide Demand, Absent;
    var pages := Missing(m.pt, page, 1);
    assert pages <= {page};
    SubsetSize(pages, {page});
    DemandInRegion(m, pages, other);
  }
}
