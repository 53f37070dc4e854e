/**
 Exactly which pages are mapped in the brk and mmap windows: when brk and mmap succeed, how far they get when they do
 not, and which pages no bookkeeping accounts for after any run of calls.
 */
module MemoryExactness {
  import opened Basics
  import opened Paging
  import opened PageRanges
  import opened UserMemory

  // ----- exactly when brk and mmap succeed -----

  /** The call's page loop failed after it had mapped something. */
  ghost predicate StopsHalfway(u: User, call: Call) {
    Do(u, call).mapping != Mapped && Do(u, call).user.mem.pt != u.mem.pt
  }

  /** The page tables that the heap and mmap windows still lack. Both lie in one 2 MiB region. */
  ghost function WindowTables(m: Mem): nat {
    |Absent(m, PageOf(USER_BRK_BASE))|
  }

  lemma WindowDemand(m: Mem, first: nat, n: nat)
    requires PageOf(USER_BRK_BASE) <= first && first + n <= PageOf(USER_MMAP_LIMIT)
    ensures var missing := Missing(m.pt, first, n);
            Demand(m, missing) == if missing == {} then 0 else |missing| + WindowTables(m)
    ensures forall p | InRange(p, first, n) :: |Absent(m, p)| == WindowTables(m)
  {
    hide Path, Demand;
    DemandInRegion(m, Missing(m.pt, first, n), PageOf(USER_BRK_BASE));
    forall p | InRange(p, first, n) ensures |Absent(m, p)| == WindowTables(m) {
      NeighbourTables(PageOf(USER_BRK_BASE), p);
    }
  }

  /** The pool covers the unmapped pages among n from `first` on, and the tables they still lack. */
  ghost predicate HeapFits(m: Mem, first: nat, n: nat) {
    var need := |Missing(m.pt, first, n)|;
    need == 0 || need + WindowTables(m) <= |m.free|
  }

  /** None of the n pages from `first` on is mapped, and the pool covers them and the tables they still lack. */
  ghost predicate AreaFits(m: Mem, first: nat, n: nat) {
    && n + WindowTables(m) <= |m.free|
    && forall p | InRange(p, first, n) :: p !in m.pt
  }

  lemma HeapFitsExactly(m: Mem, first: nat, n: nat)
    requires PageOf(USER_BRK_BASE) <= first && first + n <= PageOf(USER_MMAP_LIMIT)
    ensures var (m', r) := MapRange(m, first, n, HEAP_FLAGS, true);
            && (r == Mapped <==> HeapFits(m, first, n))
            && (r != Mapped ==> (m'.pt != m.pt <==> |m.free| > WindowTables(m)))
  {
    hide MapRange, Missing, Demand, Absent, WindowTables;
    MapRangeExactly(m, first, n, HEAP_FLAGS, true);
    WindowDemand(m, first, n);
    if MapRange(m, first, n, HEAP_FLAGS, true).1 != Mapped {
      FirstTryIn(m.pt, first, n);
    }
  }

  lemma AreaFitsExactly(m: Mem, first: nat, n: nat, flags: Flags)
    requires PageOf(USER_BRK_BASE) <= first && first + n <= PageOf(USER_MMAP_LIMIT) && n > 0
    ensures var (m', r) := MapRange(m, first, n, flags, false);
            && (r == Mapped <==> AreaFits(m, first, n))
            && (r != Mapped ==> (m'.pt != m.pt <==> |m.free| > WindowTables(m) && first !in m.pt))
  {
    hide MapRange, Missing, Demand, Absent, WindowTables;
    MapRangeExactly(m, first, n, flags, false);
    WindowDemand(m, first, n);
    assert InRange(first, first, n);
    if forall p | InRange(p, first, n) :: p !in m.pt {
      MissingAll(m.pt, first, n);
    }
  }

  function GrowPagesOf(brkEnd: nat, addr: nat): nat
    requires brkEnd < addr
  {
    PageOf(addr - 1) - PageOf(brkEnd) + 1
  }

  /** Whatever is mapped and recorded, a grow succeeds exactly when no page is missing or the pool covers the missing
      pages and tables; it stops halfway exactly when it does not succeed and the pool exceeds the missing tables. */
  lemma GrowExactly(u: User, addr: u64)
    requires BrkInWindow(u) && u.brkEnd < addr <= USER_BRK_LIMIT
    ensures var fits := HeapFits(u.mem, PageOf(u.brkEnd), GrowPagesOf(u.brkEnd, addr));
            && (BrkSpec(u, addr).mapping == Mapped <==> fits)
            && (StopsHalfway(u, Brk(addr)) <==> !fits && |u.mem.free| > WindowTables(u.mem))
  {
    hide MapRange, HeapFits, WindowTables;
    HeapFitsExactly(u.mem, PageOf(u.brkEnd), GrowPagesOf(u.brkEnd, addr));
  }

  /** Whatever is mapped and recorded, an mmap with an acceptable target succeeds exactly when no page of the range is
      mapped and the pool covers it and the missing tables; it stops halfway exactly when it does not succeed, the pool
      exceeds the missing tables and the first page is unmapped. */
  lemma MmapExactly(u: User, addr: u64, len: u64, prot: u64)
    requires addr == 0 ==> u.nextMmap % PAGE == 0 && USER_MMAP_BASE <= u.nextMmap
    requires MmapTarget(u, addr, len).Some?
    ensures var first := PageOf(MmapTarget(u, addr, len).value);
            var fits := AreaFits(u.mem, first, PagesFor(len));
            && (MmapSpec(u, addr, len, prot).mapping == Mapped <==> fits)
            && (StopsHalfway(u, Mmap(addr, len, prot)) <==>
                  !fits && |u.mem.free| > WindowTables(u.mem) && first !in u.mem.pt)
  {
    hide MapRange, AreaFits, WindowTables;
    var base, n := MmapTarget(u, addr, len).value, PagesFor(len);
    assert n * PAGE < len + PAGE && base % PAGE == 0 && n > 0;
    AreaFitsExactly(u.mem, PageOf(base), n, Flags(ProtWrite(prot), !ProtExec(prot)));
  }

  // ----- pages that nothing accounts for -----

  /** Mapped in the brk window at or beyond brk_end, or in the mmap window outside every area. */
  ghost predicate Orphan(u: User, p: nat) {
    && p in u.mem.pt
    && ((InBrkWindow(p) && u.brkEnd <= p * PAGE) || (InMmapWindow(p) && !Covered(u.areas, p)))
  }

  /** The windows are exact exactly when they hold no orphan. */
  lemma ExactMeansNoOrphan(u: User)
    ensures HeapExact(u.mem, u.brkEnd) <==> forall p: nat | InBrkWindow(p) :: !Orphan(u, p)
    ensures WindowExact(u) <==> forall p: nat | InMmapWindow(p) :: !Orphan(u, p)
  {
    hide Covered;
    if HeapExact(u.mem, u.brkEnd) {
    } else {
      var p: nat :| PageOf(USER_BRK_BASE) <= p < PageOf(USER_BRK_LIMIT) && u.brkEnd <= p * PAGE && p in u.mem.pt;
      assert InBrkWindow(p) && Orphan(u, p);
    }
  }

  /** The grow fails, but gets to page p, which was unmapped. */
  ghost predicate GrowMakes(u: User, addr: u64, p: nat) {
    && u.brkEnd < addr <= USER_BRK_LIMIT && p !in u.mem.pt
    && InRange(p, PageOf(u.brkEnd), GrowPagesOf(u.brkEnd, addr))
    && !HeapFits(u.mem, PageOf(u.brkEnd), GrowPagesOf(u.brkEnd, addr))
    && HeapFits(u.mem, PageOf(u.brkEnd), p - PageOf(u.brkEnd) + 1)
  }

  /** The grow succeeds and takes in page p. */
  ghost predicate GrowEnds(u: User, addr: u64, p: nat) {
    && u.brkEnd < addr <= USER_BRK_LIMIT && InBrkWindow(p) && p * PAGE < addr
    && HeapFits(u.mem, PageOf(u.brkEnd), GrowPagesOf(u.brkEnd, addr))
  }

  /** The call leaves page p, unmapped before, mapped without an owner: a grow or an mmap that fails after p, or an
      image load that gets to p. Each case is decided by the state before the call. */
  ghost predicate MakesOrphan(u: User, call: Call, p: nat) {
    match call
    case Brk(addr) => GrowMakes(u, addr, p)
    case Mmap(addr, len, _) =>
      && MmapTarget(u, addr, len).Some?
      && var first := PageOf(MmapTarget(u, addr, len).value);
      && InRange(p, first, PagesFor(len))
      && !AreaFits(u.mem, first, PagesFor(len)) && AreaFits(u.mem, first, p - first + 1)
    case LoadImage(ranges) => (InBrkWindow(p) || InMmapWindow(p)) && exists i: nat :: Reaches(u.mem, ranges, i, p)
    case _ => false
  }

  /** The call gives orphan p an owner or unmaps it: a successful grow beyond it, or an image dropped over it. */
  ghost predicate EndsOrphan(u: User, call: Call, p: nat) {
    match call
    case Brk(addr) => GrowEnds(u, addr, p)
    case UnmapImage(hi) => p * PAGE < hi
    case _ => false
  }

  ghost predicate OrphanStepHolds(u: User, call: Call, p: nat) {
    Orphan(Do(u, call).user, p) <==> (Orphan(u, p) && !EndsOrphan(u, call, p)) || MakesOrphan(u, call, p)
  }

  /** u' keeps what u maps. */
  ghost predicate Extends(m: Mem, m': Mem) {
    forall p | p in m.pt :: p in m'.pt && m'.pt[p] == m.pt[p]
  }

  /** A page that a loop maps lies in its range, and the loop that ends there succeeds. */
  lemma NewPage(m: Mem, first: nat, n: nat, flags: Flags, skip: bool, p: nat)
    ensures var m' := MapRange(m, first, n, flags, skip).0;
            && Extends(m, m')
            && (p in m'.pt && p !in m.pt <==>
                  p !in m.pt && InRange(p, first, n) && MapRange(m, first, p - first + 1, flags, skip).1 == Mapped)
  {
    hide MapRange;
    MapRangePages(m, first, n, flags, skip);
    if InRange(p, first, n) {
      PrefixMapped(m, first, n, flags, skip, p);
    }
  }

  lemma BrkOrphans(u: User, addr: u64, p: nat)
    requires UserInv(u)
    ensures OrphanStepHolds(u, Brk(addr), p)
  {
    hide UserInv, Orphan, Shrink, Grow, GrowMakes, GrowEnds;
    if u.brkEnd < addr <= USER_BRK_LIMIT {
      hide BrkSpec;
      GrowOrphans(u, addr, p);
    } else {
      NoGrow(u, addr, p);
      if USER_BRK_BASE <= addr < u.brkEnd {
        ShrinkOrphans(u, addr, p);
      }
    }
  }

  lemma NoGrow(u: User, addr: u64, p: nat)
    ensures !(u.brkEnd < addr <= USER_BRK_LIMIT) ==> !GrowEnds(u, addr, p) && !GrowMakes(u, addr, p)
  {
  }

  lemma GrowOrphans(u: User, addr: u64, p: nat)
    requires UserInv(u) && u.brkEnd < addr <= USER_BRK_LIMIT
    ensures Orphan(BrkSpec(u, addr).user, p) <==> (Orphan(u, p) && !GrowEnds(u, addr, p)) || GrowMakes(u, addr, p)
  {
    hide UserInv, Orphan, BrkSpec, HeapFits, StopsHalfway, WindowTables, InBrkWindow, PageOf, GrowPagesOf, InRange;
    InvOwned(u);
    GrowExactly(u, addr);
    AfterGrowCall(u, addr, p);
  }

  lemma ShrinkOrphans(u: User, addr: u64, p: nat)
    requires UserInv(u) && USER_BRK_BASE <= addr < u.brkEnd
    ensures Orphan(u.(mem := Shrink(u.mem, addr, u.brkEnd), brkEnd := addr), p) <==> Orphan(u, p)
  {
    hide Owned, Shrink, Covered, AreasWellFormed;
    ShrinkPages(u.mem, addr, u.brkEnd);
  }

  /** The pages a grow gets to map. */
  lemma GrowReaches(u: User, addr: u64, p: nat)
    requires BrkInWindow(u) && u.brkEnd < addr <= USER_BRK_LIMIT
    ensures var first, m' := PageOf(u.brkEnd), Grow(u.mem, u.brkEnd, addr).0;
            && Extends(u.mem, m')
            && (p in m'.pt && p !in u.mem.pt <==>
                  && p !in u.mem.pt && InRange(p, first, GrowPagesOf(u.brkEnd, addr))
                  && HeapFits(u.mem, first, p - first + 1))
  {
    hide MapRange, HeapFits, Extends;
    var first, n := PageOf(u.brkEnd), GrowPagesOf(u.brkEnd, addr);
    NewPage(u.mem, first, n, HEAP_FLAGS, true, p);
    if InRange(p, first, n) {
      HeapFitsExactly(u.mem, first, p - first + 1);
    }
  }

  /** The orphans after a grow, by how it ended. */
  lemma AfterGrowCall(u: User, addr: u64, p: nat)
    requires UserInv(u) && u.brkEnd < addr <= USER_BRK_LIMIT
    ensures var o := BrkSpec(u, addr);
            var first := PageOf(u.brkEnd);
            Orphan(o.user, p) <==>
            if o.mapping == Mapped then Orphan(u, p) && !(InBrkWindow(p) && p * PAGE < addr)
            else || Orphan(u, p)
                 || (p !in u.mem.pt && InRange(p, first, GrowPagesOf(u.brkEnd, addr))
                     && HeapFits(u.mem, first, p - first + 1))
  {
    hide Owned, Grow, HeapMapped, AreasWellFormed, HeapFits, Orphan, Extends, GrowPagesOf, PageOf;
    GrowReaches(u, addr, p);
    GrowSpan(u, addr, p);
    var m' := Grow(u.mem, u.brkEnd, addr).0;
    if BrkSpec(u, addr).mapping == Mapped {
      AfterGrow(u, m', addr, p);
    } else {
      AfterFailedArea(u, u.(mem := m'), p);
    }
  }

  lemma GrowSpan(u: User, addr: u64, p: nat)
    requires BrkInWindow(u) && u.brkEnd < addr <= USER_BRK_LIMIT
    ensures InRange(p, PageOf(u.brkEnd), GrowPagesOf(u.brkEnd, addr)) ==> InBrkWindow(p) && p * PAGE < addr
  {
    PagesOfSpan(u.brkEnd, addr, p);
  }

  lemma AfterGrow(u: User, m': Mem, addr: u64, p: nat)
    requires u.brkEnd < addr && Extends(u.mem, m')
    requires p in m'.pt && p !in u.mem.pt ==> InBrkWindow(p) && p * PAGE < addr
    ensures Orphan(u.(mem := m', brkEnd := addr), p) <==> Orphan(u, p) && !(InBrkWindow(p) && p * PAGE < addr)
  {
    hide Covered;
  }

  lemma MmapOrphans(u: User, addr: u64, len: u64, prot: u64, p: nat)
    requires UserInv(u)
    ensures OrphanStepHolds(u, Mmap(addr, len, prot), p)
  {
    hide Owned, MapRange, HeapMapped, AreaFits, StopsHalfway, AreasWellFormed, Orphan, Extends, PagesFor, PageOf;
    var t := MmapTarget(u, addr, len);
    NextMmapAligned(u);
    if t.Some? {
      TargetInWindow(u, addr, len);
      var first, n := PageOf(t.value), PagesFor(len);
      var flags := Flags(ProtWrite(prot), !ProtExec(prot));
      MmapExactly(u, addr, len, prot);
      AreaReaches(u.mem, first, n, flags, p);
      var u' := MmapSpec(u, addr, len, prot).user;
      if MmapSpec(u, addr, len, prot).mapping == Mapped {
        AreaFitsAll(u.mem, first, n, flags, p);
        AfterArea(u, u', first, n, p);
      } else {
        AfterFailedArea(u, u', p);
      }
    } else {
      SameOrphans(u, MmapSpec(u, addr, len, prot).user, p);
    }
  }

  lemma TargetInWindow(u: User, addr: u64, len: u64)
    requires u.nextMmap % PAGE == 0 && USER_MMAP_BASE <= u.nextMmap && MmapTarget(u, addr, len).Some?
    ensures var first, n := PageOf(MmapTarget(u, addr, len).value), PagesFor(len);
            n > 0 && PageOf(USER_MMAP_BASE) <= first && first + n <= PageOf(USER_MMAP_LIMIT)
    ensures forall p | InRange(p, PageOf(MmapTarget(u, addr, len).value), PagesFor(len)) :: InMmapWindow(p)
  {
    assert PagesFor(len) * PAGE < len + PAGE;
  }

  /** The pages an mmap gets to map. */
  lemma AreaReaches(m: Mem, first: nat, n: nat, flags: Flags, p: nat)
    requires PageOf(USER_MMAP_BASE) <= first && first + n <= PageOf(USER_MMAP_LIMIT)
    ensures var m' := MapRange(m, first, n, flags, false).0;
            && Extends(m, m')
            && (p in m'.pt && p !in m.pt <==> InRange(p, first, n) && AreaFits(m, first, p - first + 1))
  {
    hide MapRange, WindowTables, Extends;
    NewPage(m, first, n, flags, false, p);
    if InRange(p, first, n) {
      AreaFitsExactly(m, first, p - first + 1, flags);
      assert InRange(p, first, p - first + 1);
    }
  }

  lemma NextMmapAligned(u: User)
    requires AreasWellFormed(u)
    ensures u.nextMmap % PAGE == 0 && USER_MMAP_BASE <= u.nextMmap
  {
  }

  lemma SameOrphans(u: User, u': User, p: nat)
    requires u'.mem == u.mem && u'.areas == u.areas && u'.brkEnd == u.brkEnd
    ensures Orphan(u', p) <==> Orphan(u, p)
  {
  }

  lemma AreaFitsAll(m: Mem, first: nat, n: nat, flags: Flags, p: nat)
    requires AreaFits(m, first, n) && MapRange(m, first, n, flags, false).1 == Mapped
    ensures InRange(p, first, n) ==> p !in m.pt && p in MapRange(m, first, n, flags, false).0.pt
  {
    hide MapRange, WindowTables;
    MapRangePages(m, first, n, flags, false);
  }

  /** A new area owns every page it adds and no page that was mapped before. */
  lemma AfterArea(u: User, u': User, first: nat, n: nat, p: nat)
    requires AreasWellFormed(u) && u'.brkEnd == u.brkEnd && Extends(u.mem, u'.mem)
    requires PageOf(USER_MMAP_BASE) <= first && first + n <= PageOf(USER_MMAP_LIMIT)
    requires p in u'.mem.pt && p !in u.mem.pt ==> InRange(p, first, n)
    requires InRange(p, first, n) ==> p !in u.mem.pt
    requires |u'.areas| == |u.areas| + 1 && u'.areas[..|u.areas|] == u.areas
    requires PageOf(u'.areas[|u.areas|].start) == first && u'.areas[|u.areas|].pages == n
    ensures Orphan(u', p) <==> Orphan(u, p)
  {
    hide AreasWellFormed;
    var a := u'.areas[|u.areas|];
    assert u'.areas == u.areas + [a];
    assert Covered(u'.areas, p) <==> Covered(u.areas, p) || InRange(p, first, n);
  }

  /** Without a new area, the pages that were added in the windows are orphans. */
  lemma AfterFailedArea(u: User, u': User, p: nat)
    requires UserInv(u) && u'.brkEnd == u.brkEnd && u'.areas == u.areas && Extends(u.mem, u'.mem)
    ensures Orphan(u', p) <==>
            Orphan(u, p) || (p in u'.mem.pt && p !in u.mem.pt && (InBrkWindow(p) || InMmapWindow(p)))
  {
    hide Owned;
    if p !in u.mem.pt && InMmapWindow(p) {
      forall a | a in u.areas ensures !InRange(p, PageOf(a.start), a.pages) {
        assert AreaMapped(u.mem, a);
      }
    }
    if p !in u.mem.pt && InBrkWindow(p) {
      assert u.brkEnd <= p * PAGE;
    }
  }

  lemma MunmapOrphans(u: User, addr: u64, len: u64, p: nat)
    requires UserInv(u)
    ensures OrphanStepHolds(u, Munmap(addr, len), p)
  {
    hide UserInv, MunmapSpec, FramesIn, Retain, Matches;
    var i := MunmapExact(u, addr, len);
    var u' := MunmapSpec(u, addr, len).user;
    if MunmapSpec(u, addr, len).ret == 0 {
      RemovedArea(u, u', i, p);
    }
  }

  lemma RemovedArea(u: User, u': User, i: nat, p: nat)
    requires UserInv(u) && i < |u.areas| && u'.brkEnd == u.brkEnd && u'.areas == u.areas[..i] + u.areas[i + 1..]
    requires var a := u.areas[i];
             u'.mem.pt == map q | q in u.mem.pt && !InRange(q, PageOf(a.start), a.pages) :: u.mem.pt[q]
    ensures Orphan(u', p) <==> Orphan(u, p)
  {
    hide Owned, HeapMapped;
    var a := u.areas[i];
    assert AreaInWindow(a) && a in u.areas;
    if !InRange(p, PageOf(a.start), a.pages) {
      if Covered(u.areas, p) {
        var b :| b in u.areas && InRange(p, PageOf(b.start), b.pages);
        var j :| 0 <= j < |u.areas| && u.areas[j] == b;
        assert u'.areas[if j < i then j else j - 1] == b;
      }
      assert forall b | b in u'.areas :: b in u.areas;
    }
  }

  lemma ImageOrphans(u: User, call: Call, p: nat)
    requires UserInv(u) && (call.LoadImage? || call.UnmapImage? || call.MapChildStack?)
    ensures OrphanStepHolds(u, call, p)
  {
    hide UserInv, LoadRanges, Reaches, Orphan;
    match call
    case LoadImage(ranges) =>
      LoadRangesPages(u.mem, ranges);
      LoadReaches(u.mem, ranges, p);
      AfterFailedArea(u, Do(u, call).user, p);
    case UnmapImage(hi) =>
      DropOrphans(u, hi, p);
    case MapChildStack =>
      ChildStackPages(u);
      AfterFailedArea(u, Do(u, call).user, p);
  }

  lemma DropOrphans(u: User, hi: u64, p: nat)
    requires UserInv(u)
    ensures Orphan(Do(u, UnmapImage(hi)).user, p) <==> Orphan(u, p) && !(p * PAGE < hi)
  {
    hide Owned, Do, Covered;
    DropPages(u, hi);
  }

  /** One call, exactly: an orphan stays one unless the call ends it, and a page becomes one only if the call makes it
      one. */
  lemma OrphanStep(u: User, call: Call, p: nat)
    requires UserInv(u)
    ensures OrphanStepHolds(u, call, p)
  {
    hide UserInv, OrphanStepHolds;
    match call
    case Brk(addr) => BrkOrphans(u, addr, p);
    case Mmap(addr, len, prot) => MmapOrphans(u, addr, len, prot, p);
    case Munmap(addr, len) => MunmapOrphans(u, addr, len, p);
    case _ => ImageOrphans(u, call, p);
  }

  /** Starting from an exact heap, a grow leaves it exact if and only if it succeeds or the pool does not exceed the
      missing tables. */
  lemma GrowKeepsExact(u: User, addr: u64)
    requires UserInv(u) && HeapExact(u.mem, u.brkEnd) && u.brkEnd < addr <= USER_BRK_LIMIT
    ensures var u' := BrkSpec(u, addr).user;
            HeapExact(u'.mem, u'.brkEnd) <==>
            || HeapFits(u.mem, PageOf(u.brkEnd), GrowPagesOf(u.brkEnd, addr))
            || |u.mem.free| <= WindowTables(u.mem)
  {
    hide UserInv, HeapExact, BrkSpec, HeapFits, Orphan, WindowTables, InBrkWindow, PageOf, GrowPagesOf;
    InvOwned(u);
    GrowExactly(u, addr);
    var o := BrkSpec(u, addr);
    ExactMeansNoOrphan(u);
    ExactMeansNoOrphan(o.user);
    if StopsHalfway(u, Brk(addr)) {
      var p := AddedByGrow(u, addr);
      AfterGrowCall(u, addr, p);
    } else {
      forall p: nat | InBrkWindow(p) ensures !Orphan(o.user, p) {
        AfterGrowCall(u, addr, p);
        if o.mapping != Mapped {
          NothingAdded(u, addr, p);
        }
      }
    }
  }

  lemma AddedByGrow(u: User, addr: u64) returns (p: nat)
    requires UserInv(u) && u.brkEnd < addr <= USER_BRK_LIMIT && StopsHalfway(u, Brk(addr))
    ensures var first := PageOf(u.brkEnd);
            && InBrkWindow(p) && p !in u.mem.pt && InRange(p, first, GrowPagesOf(u.brkEnd, addr))
            && HeapFits(u.mem, first, p - first + 1)
  {
    hide UserInv, Grow, HeapFits;
    InvOwned(u);
    var m' := Grow(u.mem, u.brkEnd, addr).0;
    GrowReaches(u, addr, 0);
    p :| p in m'.pt && p !in u.mem.pt;
    GrowReaches(u, addr, p);
    GrowSpan(u, addr, p);
  }

  lemma NothingAdded(u: User, addr: u64, p: nat)
    requires UserInv(u) && u.brkEnd < addr <= USER_BRK_LIMIT
    requires BrkSpec(u, addr).mapping != Mapped && !StopsHalfway(u, Brk(addr))
    ensures var first := PageOf(u.brkEnd);
            !(p !in u.mem.pt && InRange(p, first, GrowPagesOf(u.brkEnd, addr)) && HeapFits(u.mem, first, p - first + 1))
  {
    hide UserInv, Grow, HeapFits, Extends;
    InvOwned(u);
    GrowReaches(u, addr, p);
  }

  /** Starting from an exact window, an mmap leaves it exact if and only if it succeeds, the pool does not exceed the
      missing tables, or the first page is taken. */
  lemma MmapKeepsExact(u: User, addr: u64, len: u64, prot: u64)
    requires UserInv(u) && WindowExact(u) && MmapTarget(u, addr, len).Some?
    ensures var first := PageOf(MmapTarget(u, addr, len).value);
            WindowExact(MmapSpec(u, addr, len, prot).user) <==>
            || AreaFits(u.mem, first, PagesFor(len))
            || |u.mem.free| <= WindowTables(u.mem) || first in u.mem.pt
  {
    hide UserInv, WindowExact, MmapSpec, AreaFits, Orphan, WindowTables, PageOf, PagesFor, MmapTarget, AreasWellFormed,
         StopsHalfway, InMmapWindow;
    InvAreas(u);
    NextMmapAligned(u);
    MmapExactly(u, addr, len, prot);
    var first, n := PageOf(MmapTarget(u, addr, len).value), PagesFor(len);
    TargetInWindow(u, addr, len);
    var o := MmapSpec(u, addr, len, prot);
    ExactMeansNoOrphan(u);
    ExactMeansNoOrphan(o.user);
    if !AreaFits(u.mem, first, n) && AreaFits(u.mem, first, 1) {
      assert InRange(first, first, n);
      MmapOrphans(u, addr, len, prot, first);
    } else {
      forall p: nat | InMmapWindow(p) ensures !Orphan(o.user, p) {
        MmapOrphans(u, addr, len, prot, p);
        ShorterFits(u.mem, first, p);
      }
    }
    OnePageFits(u.mem, first);
  }

  lemma InvAreas(u: User)
    requires UserInv(u)
    ensures AreasWellFormed(u)
  {
  }

  lemma OnePageFits(m: Mem, first: nat)
    ensures AreaFits(m, first, 1) <==> |m.free| > WindowTables(m) && first !in m.pt
  {
    assert InRange(first, first, 1);
  }

  lemma ShorterFits(m: Mem, first: nat, p: nat)
    ensures first <= p && AreaFits(m, first, p - first + 1) ==> AreaFits(m, first, 1)
  {
    assert forall q | InRange(q, first, 1) :: q == first;
    assert first <= p ==> InRange(first, first, p - first + 1);
  }

  // ----- whole runs -----

  /** Whether p is an orphan after the calls, told from the calls alone. */
  ghost predicate OrphanAfter(u: User, calls: seq<Call>, p: nat, before: bool)
    decreases |calls|
  {
    if calls == [] then before
    else
      OrphanAfter(Do(u, calls[0]).user, calls[1..], p,
                  (before && !EndsOrphan(u, calls[0], p)) || MakesOrphan(u, calls[0], p))
  }

  /** Over every run, the orphans are exactly the pages that some call made orphans and no later call ended. */
  lemma {:induction false} OrphansOverRuns(u: User, calls: seq<Call>, p: nat)
    requires UserInv(u) && Sparing(u, calls)
    ensures Orphan(Run(u, calls), p) <==> OrphanAfter(u, calls, p, Orphan(u, p))
    decreases |calls|
  {
    hide UserInv, Do, SparesHeap, Orphan, EndsOrphan, MakesOrphan;
    if calls != [] {
      CallKeepsInv(u, calls[0]);
      OrphanStep(u, calls[0], p);
      OrphansOverRuns(Do(u, calls[0]).user, calls[1..], p);
    }
  }

  /** The pages mapped in the brk window are exactly those that meet [USER_BRK_BASE, brk_end) after a run if and only
      if the run leaves no orphan there. */
  lemma HeapExactOverRuns(u: User, calls: seq<Call>)
    requires UserInv(u) && Sparing(u, calls)
    ensures HeapMapped(Run(u, calls).mem, Run(u, calls).brkEnd)
    ensures HeapExact(Run(u, calls).mem, Run(u, calls).brkEnd) <==>
            forall p: nat | InBrkWindow(p) :: !OrphanAfter(u, calls, p, Orphan(u, p))
  {
    hide Run, Do, SparesHeap, Orphan, OrphanAfter;
    InvOverRuns(u, calls);
    ExactMeansNoOrphan(Run(u, calls));
    forall p: nat ensures Orphan(Run(u, calls), p) <==> OrphanAfter(u, calls, p, Orphan(u, p)) {
      OrphansOverRuns(u, calls, p);
    }
  }

  /** Every page mapped in the mmap window belongs to a recorded area after a run if and only if the run leaves no
      orphan there. */
  lemma WindowExactOverRuns(u: User, calls: seq<Call>)
    requires UserInv(u) && Sparing(u, calls)
    ensures WindowExact(Run(u, calls)) <==>
            forall p: nat | InMmapWindow(p) :: !OrphanAfter(u, calls, p, Orphan(u, p))
  {
    hide Run, Do, SparesHeap, Orphan, OrphanAfter;
    ExactMeansNoOrphan(Run(u, calls));
    forall p: nat ensures Orphan(Run(u, calls), p) <==> OrphanAfter(u, calls, p, Orphan(u, p)) {
      OrphansOverRuns(u, calls, p);
    }
  }

  /** A page leaked in the mmap window stays mapped and uncovered in every later run that drops no image over it. */
  lemma {:induction false} LeakStaysOverRuns(u: User, calls: seq<Call>, p: nat)
    requires UserInv(u) && Sparing(u, calls) && InMmapWindow(p) && Orphan(u, p)
    requires forall c | c in calls && c.UnmapImage? :: c.imageEnd <= p * PAGE
    ensures Orphan(Run(u, calls), p)
    decreases |calls|
  {
    hide UserInv, Do, SparesHeap, Orphan;
    if calls != [] {
      CallKeepsInv(u, calls[0]);
      OrphanStep(u, calls[0], p);
      LeakStaysOverRuns(Do(u, calls[0]).user, calls[1..], p);
    }
  }
}
