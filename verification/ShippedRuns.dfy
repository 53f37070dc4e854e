/**
 The shipped kernel over whole runs, execs included: which pages of its image and stacks are mapped when, what its
 access checks then accept, and what its forks do.
 */
module ShippedRuns {
  import opened Basics
  import opened FrameBitmap
  import opened Paging
  import opened PageRanges
  import opened UserMemory
  import opened AddressSpace
  import opened ProcessMemory
  import opened MemoryResults
  import opened ForkStack
  import opened ElfLoader
  import opened Exec
  import opened Boot
  import opened ReExec
  import opened SharedMemory
  import opened ShippedImage

  const IMAGE_FLAGS: Flags := Flags(true, false)

  /** The bounds that loading the shipped image stores. */
  const SHIPPED_END: nat := 0x401000
  const SHIPPED_RW: nat := 0x3ff000

  /** They are what the loader reports. */
  lemma ShippedBounds(image: seq<byte>, meta: ElfLoadedMeta, k: nat)
    requires IsShipped(image) && MetaOf(image, 0, k, meta)
    ensures Max(meta.imageEnd, USER_TEXT_BASE + PAGE) == SHIPPED_END && meta.rwMin == SHIPPED_RW
  {
    hide IsShipped, PhdrAt, Phnum, PhdrInBounds, IsPhdrVa, Entry;
    ShippedFields(image);
    ShippedRanges(image);
    assert LoadableAt(image, 1, 0) && SHIPPED.Seg(0) == 0x3ff000;
    assert forall i | LoadableAt(image, 1, i) :: i == 0;
  }

  /** The first process of the shipped kernel. */
  ghost function ShippedMachine(regions: seq<MemoryRegion>): Machine {
    var u := FirstUser(ShippedMemory(regions));
    Machine(Shared(u.mem, map[1 := Own(u.brkEnd, u.areas)], u.nextMmap, u.nextId), SHIPPED_END)
  }

  /** Boot maps the two pages of the image, the stack page and pages far above, and nothing else. */
  lemma ShippedPages(regions: seq<MemoryRegion>)
    requires |BootFree(regions)| >= 74
    ensures var pt := ShippedMemory(regions).pt;
            && 0x3ff in pt && pt[0x3ff].flags == IMAGE_FLAGS && 0x400 in pt && pt[0x400].flags == IMAGE_FLAGS
            && 0x401 in pt && forall p | p in pt && p < 0x404 :: 0x3ff <= p <= 0x401
  {
    hide MapRange, LoadRanges, BootFree, AllocAndMap, UserInv, UserMemory.Boot, Owned;
    var m := Untouched(regions);
    ShippedBoots(regions);
    MapRangePages(m, HEAP_PAGE, HEAP_PAGES, HEAP_FLAGS, false);
    AllocAndMapPages(WithHeap(m).0, 0x401, HEAP_FLAGS);
    ImageAdds(WithStack(WithHeap(m).0).0);
  }

  /** What loading the shipped image adds. */
  lemma ImageAdds(m: Mem)
    requires LoadRanges(m, [SHIPPED_RANGE]).1 == Mapped && 0x3ff !in m.pt && 0x400 !in m.pt
    ensures var pt := LoadRanges(m, [SHIPPED_RANGE]).0.pt;
            && pt.Keys == m.pt.Keys + {0x3ff, 0x400} && pt[0x3ff].flags == IMAGE_FLAGS && pt[0x400].flags == IMAGE_FLAGS
  {
    hide LoadRanges, MapRange;
    LoadRangesKeys(m, [SHIPPED_RANGE]);
    LoadRangesPages(m, [SHIPPED_RANGE]);
    assert [SHIPPED_RANGE][1..] == [];
    assert Span(SHIPPED_RANGE) == {0x3ff, 0x400};
    assert PagesOf([SHIPPED_RANGE]) == {0x3ff, 0x400};
    var pt := LoadRanges(m, [SHIPPED_RANGE]).0.pt;
    assert 0x3ff in pt.Keys && 0x400 in pt.Keys;
  }

  /** Booting the shipped image on a memory map with frames for it starts that machine. */
  method BootShipped(regions: seq<MemoryRegion>, ram: map<nat, byte>, image: seq<byte>, blob: seq<byte>)
      returns (p: Option<Process>)
    requires IsShipped(image) && |BootFree(regions)| >= 74
    requires |blob| <= PAGE && forall a: nat :: a in ram <==> a < RAM_BYTES
    ensures p.Some? && p.value.space.Valid() && Owned(p.value.space.View())
    ensures var x := ShippedMachine(regions);
            && p.value.View() == ViewOf(x.shared, 1) && p.value.imageEnd == x.imageEnd && p.value.rwStart == SHIPPED_RW
  {
    hide IsShipped, BootFree, Owned, Universe, LoadRanges, MapRange, AllocAndMap, SegmentRanges, CheckHeader, Phnum,
         LoadOk, UserInv, UserMemory.Boot, Justified, Tried, LoadedUpTo, MetaOf, BootBytes, SameView, Confined,
         ReadVirt, WithinSegments, SegmentsAvoid;
    ShippedLoads(regions, image);
    ShippedBoots(regions);
    ShippedRanges(image);
    ghost var load, k, n;
    p, load, k, n := BootKernel(regions, ram, image, blob);
    TriedOne(image);
    ShippedBounds(image, load.value, k);
  }

  lemma TriedOne(image: seq<byte>)
    requires IsShipped(image)
    ensures |image| >= 64 && Phnum(image) == 1 && TriedRanges(image, 0, 1) == [SHIPPED_RANGE]
  {
    hide IsShipped, SegmentRanges, Phnum;
    ShippedFields(image);
    ShippedRanges(image);
  }

  // ----- runs -----

  /** Some process attempts an exec in the run. */
  ghost predicate ExecTried(x: Machine, image: seq<byte>, hs: seq<Happening>)
    decreases |hs|
  {
    hs != [] &&
    ((hs[0].ExecBy? && hs[0].pid in x.shared.procs) || ExecTried(Happen(x, image, hs[0]), image, hs[1..]))
  }

  /** What holds of every run: the text page is there until the first exec, and nothing else below the heap changes but
      the child's stack page. */
  ghost predicate ShippedInv(x: Machine, tried: bool) {
    var pt := x.shared.mem.pt;
    && Owned(x.shared.mem) && Rooted(x.shared.mem) && Tidy(x.shared) && x.imageEnd == SHIPPED_END
    && 0x3ff in pt && pt[0x3ff].flags == IMAGE_FLAGS && (0x400 in pt <==> !tried)
    && (0x400 in pt ==> pt[0x400].flags == IMAGE_FLAGS) && 0x401 in pt
    && forall p | p in pt && p < 0x404 :: 0x3ff <= p <= 0x402
  }

  lemma ShippedStarts(regions: seq<MemoryRegion>)
    requires |BootFree(regions)| >= 74
    ensures ShippedInv(ShippedMachine(regions), false)
  {
    hide Owned, Rooted, Tidy, UserInv, UserMemory.Boot, ShippedMemory, BootFree;
    ShippedPages(regions);
    ShippedBoots(regions);
    ShippedRooted(regions);
    TidyAtBoot(FirstUser(ShippedMemory(regions)));
  }

  lemma ShippedRooted(regions: seq<MemoryRegion>)
    requires |BootFree(regions)| >= 74
    ensures Rooted(ShippedMemory(regions))
  {
    hide Owned, Universe, MapRange, LoadRanges, AllocAndMap, BootFree, Rooted, UserInv, UserMemory.Boot;
    ShippedBoots(regions);
    UntouchedOwned(regions);
    HeapSteps(Untouched(regions));
    BootSteps(WithHeap(Untouched(regions)).0, [SHIPPED_RANGE], true);
  }

  lemma TidyAtBoot(u: User)
    requires UserMemory.Boot(u)
    ensures Owned(u.mem) && Tidy(Shared(u.mem, map[1 := Own(u.brkEnd, u.areas)], u.nextMmap, u.nextId))
  {
    hide Owned;
  }

  lemma EventKeepsShipped(x: Machine, tried: bool, image: seq<byte>, h: Happening)
    requires ShippedInv(x, tried) && h.Memory? && Proper(h)
    ensures ShippedInv(Happen(x, image, h), tried)
  {
    hide Owned, Rooted, Universe, Tidy, SharedMemory.Step;
    var s := x.shared;
    SharedStep(s, h.ev);
    forall p | p in s.mem.pt && OutsideWindows(p)
      ensures p in SharedMemory.Step(s, h.ev).mem.pt && SharedMemory.Step(s, h.ev).mem.pt[p] == s.mem.pt[p]
    {
      OutsideStep(s, h.ev, p);
    }
    forall p: nat | p !in s.mem.pt && p < 0x404 && p != 0x402 ensures p !in SharedMemory.Step(s, h.ev).mem.pt {
      EmptyStep(s, h.ev, p);
    }
  }

  /** The load stops at the first header, whose first page is refused. */
  lemma ShippedStops(m: Mem, image: seq<byte>)
    requires IsShipped(image) && 0x3ff in m.pt
    ensures !LoadOk(m, image, 0) && TriedRanges(image, 0, TriedHeaders(m, image)) == [SHIPPED_RANGE]
    ensures LoadRanges(m, [SHIPPED_RANGE]) == AllocAndMap(m, 0x3ff, IMAGE_FLAGS)
    ensures AllocAndMap(m, 0x3ff, IMAGE_FLAGS).1 != Mapped
  {
    hide IsShipped, PhdrAt, PhdrInBounds, Phnum, Phoff, SegmentRanges, LoadRanges, AllocAndMap, MapRange, Demand;
    ShippedFields(image);
    ShippedRanges(image);
    MapRangeSplits(m, 0x3ff, 1, 1, IMAGE_FLAGS, false);
    AllocAndMapPages(m, 0x3ff, IMAGE_FLAGS);
    LoadPrefix(m, [SHIPPED_RANGE], []);
    assert 0x3ff in PagesOf([SHIPPED_RANGE]);
    assert !Reached(m, image, 0, 1);
    HeaderInOrder(m, image);
    assert StopsAt(m, image, 0, 0) == 0;
  }

  lemma HeaderInOrder(m: Mem, image: seq<byte>)
    requires IsShipped(image)
    ensures |image| >= 64 && Tried(image, 0, 0) == 1
  {
    hide IsShipped, PhdrAt, PhdrInBounds, Phnum, Phoff, SegmentRanges, CheckHeader, PagesOf;
    ShippedFields(image);
    ShippedRanges(image);
    PagesOfShipped();
    ShippedHeadersOk(m, image);
    assert HeaderOk(image, 0, 0);
  }

  lemma PagesOfShipped()
    ensures PagesOf([SHIPPED_RANGE]) == {0x3ff, 0x400}
  {
    assert [SHIPPED_RANGE][1..] == [];
    assert Span(SHIPPED_RANGE) == {0x3ff, 0x400};
  }

  /** An exec drops the text page, tries the header page and leaves everything else as it is. */
  lemma ExecIs(x: Machine, tried: bool, image: seq<byte>, pid: nat)
    requires ShippedInv(x, tried) && IsShipped(image) && pid in x.shared.procs
    ensures var x' := Happen(x, image, ExecBy(pid));
            var m := Dropped(ViewOf(x.shared, pid), SHIPPED_END);
            && x'.shared.mem == AllocAndMap(m, 0x3ff, IMAGE_FLAGS).0 && x'.shared.mem.pt == m.pt
            && x'.shared.procs == x.shared.procs && x'.imageEnd == SHIPPED_END
            && m.pt == (map p | p in x.shared.mem.pt && p != 0x400 :: x.shared.mem.pt[p])
            && m.tables == x.shared.mem.tables && m.lost == x.shared.mem.lost
            && (0x400 in x.shared.mem.pt ==> m.free != {})
  {
    hide Owned, Rooted, Universe, Tidy, IsShipped, LoadRanges, AllocAndMap, UnmapRange, TriedHeaders, TriedRanges,
         LoadOk;
    var u := ViewOf(x.shared, pid);
    var m := Dropped(u, SHIPPED_END);
    ImageDropped(u, SHIPPED_END);
    assert forall p: nat :: 0x400 <= p && 4096 * p < 0x401000 <==> p == 0x400;
    assert 0x3ff in m.pt;
    ShippedStops(m, image);
    AllocAndMapPages(m, 0x3ff, IMAGE_FLAGS);
    var s1 := SharedMemory.Step(x.shared, By(pid, UnmapImage(SHIPPED_END)));
    assert s1.mem == m && s1.procs == x.shared.procs;
    if 0x400 in x.shared.mem.pt {
      assert x.shared.mem.pt[0x400].frame in m.free;
    }
  }

  lemma ExecKeepsShipped(x: Machine, tried: bool, image: seq<byte>, h: Happening)
    requires ShippedInv(x, tried) && h.ExecBy? && IsShipped(image) && h.pid in x.shared.procs
    ensures ShippedInv(Happen(x, image, h), true)
  {
    hide Owned, Rooted, Universe, Tidy, IsShipped, AllocAndMap, Do, LoadOk, TriedRanges, TriedHeaders,
         SharedMemory.Step;
    ExecIs(x, tried, image, h.pid);
    var m := Dropped(ViewOf(x.shared, h.pid), SHIPPED_END);
    var drop := SharedMemory.By(h.pid, UnmapImage(SHIPPED_END));
    SharedStep(x.shared, drop);
    var s1 := SharedMemory.Step(x.shared, drop);
    SharedStep(s1, By(h.pid, LoadImage(TriedRanges(image, 0, TriedHeaders(m, image)))));
  }

  lemma {:induction false} ShippedKeeps(x: Machine, tried: bool, image: seq<byte>, hs: seq<Happening>)
    requires ShippedInv(x, tried) && IsShipped(image) && forall h | h in hs :: Proper(h)
    ensures ShippedInv(Happenings(x, image, hs), tried || ExecTried(x, image, hs))
    decreases |hs|
  {
    hide ShippedInv, Happen, Proper, IsShipped;
    if hs != [] {
      assert hs[0] in hs;
      var x1 := Happen(x, image, hs[0]);
      if hs[0].Memory? {
        EventKeepsShipped(x, tried, image, hs[0]);
        ShippedKeeps(x1, tried, image, hs[1..]);
      } else if hs[0].pid in x.shared.procs {
        ExecKeepsShipped(x, tried, image, hs[0]);
        ShippedKeeps(x1, true, image, hs[1..]);
      } else {
        NoExec(x, image, hs[0]);
        ShippedKeeps(x1, tried, image, hs[1..]);
      }
    }
  }

  /** In every run of the shipped kernel the text page is mapped exactly until the first exec attempt; the header page
      below it and the stack page above it stay, the gap page 0x403 never appears, and the bounds do not move. */
  lemma ShippedOverRuns(regions: seq<MemoryRegion>, image: seq<byte>, hs: seq<Happening>)
    requires |BootFree(regions)| >= 74 && IsShipped(image) && forall h | h in hs :: Proper(h)
    ensures var x := Happenings(ShippedMachine(regions), image, hs);
            && ShippedInv(x, ExecTried(ShippedMachine(regions), image, hs))
            && (0x400 in x.shared.mem.pt <==> !ExecTried(ShippedMachine(regions), image, hs))
            && 0x3ff in x.shared.mem.pt && 0x401 in x.shared.mem.pt && 0x403 !in x.shared.mem.pt
  {
    hide BootFree, ShippedMachine, Happenings, ExecTried, Owned, Tidy, IsShipped, Proper;
    ShippedStarts(regions);
    ShippedKeeps(ShippedMachine(regions), false, image, hs);
  }

  /** In every run of the shipped kernel, each further exec attempt, by whichever process, unmaps the text page if it is
      still there and loses exactly one frame if the pool then has one, as it always has at the first attempt; it
      changes nothing else. */
  lemma ExecLosesFrame(regions: seq<MemoryRegion>, image: seq<byte>, hs: seq<Happening>, pid: nat)
    requires |BootFree(regions)| >= 74 && IsShipped(image) && forall h | h in hs :: Proper(h)
    requires pid in Happenings(ShippedMachine(regions), image, hs).shared.procs
    ensures var x := Happenings(ShippedMachine(regions), image, hs);
            var x' := Happen(x, image, ExecBy(pid));
            var m, m' := x.shared.mem, x'.shared.mem;
            var free := m.free + if 0x400 in m.pt then {m.pt[0x400].frame} else {};
            && m'.pt == (map p | p in m.pt && p != 0x400 :: m.pt[p]) && m'.tables == m.tables
            && m'.lost == m.lost + (if free == {} then {} else {Lowest(free)})
            && |m'.lost| == |m.lost| + (if free == {} then 0 else 1)
            && m'.free == free - (if free == {} then {} else {Lowest(free)})
            && x' == x.(shared := x.shared.(mem := m'))
            && (!ExecTried(ShippedMachine(regions), image, hs) ==> free != {})
  {
    hide BootFree, ShippedMachine, Happenings, ExecTried, Happen, Owned, Rooted, Tidy, IsShipped, Proper;
    ShippedOverRuns(regions, image, hs);
    var x0 := ShippedMachine(regions);
    ExecAttempt(Happenings(x0, image, hs), ExecTried(x0, image, hs), image, pid);
  }

  lemma ExecAttempt(x: Machine, tried: bool, image: seq<byte>, pid: nat)
    requires ShippedInv(x, tried) && IsShipped(image) && pid in x.shared.procs
    ensures var x' := Happen(x, image, ExecBy(pid));
            var m, m' := x.shared.mem, x'.shared.mem;
            var free := m.free + if 0x400 in m.pt then {m.pt[0x400].frame} else {};
            && m'.pt == (map p | p in m.pt && p != 0x400 :: m.pt[p]) && m'.tables == m.tables
            && m'.lost == m.lost + (if free == {} then {} else {Lowest(free)})
            && |m'.lost| == |m.lost| + (if free == {} then 0 else 1)
            && m'.free == free - (if free == {} then {} else {Lowest(free)})
            && x' == x.(shared := x.shared.(mem := m'))
  {
    hide Owned, Rooted, Universe, Tidy, IsShipped, AllocAndMap, Do, Happen;
    ExecIs(x, tried, image, pid);
    var u := ViewOf(x.shared, pid);
    ExecFreed(u);
    var m := Dropped(u, SHIPPED_END);
    RefusedMapping(x.shared.mem, m);
    HappenKeepsCounters(x, image, pid);
  }

  lemma ExecFreed(u: User)
    requires Owned(u.mem)
    ensures Dropped(u, SHIPPED_END).free == u.mem.free + if 0x400 in u.mem.pt then {u.mem.pt[0x400].frame} else {}
    ensures Owned(Dropped(u, SHIPPED_END))
  {
    hide Owned, Universe, UnmapRange;
    ImageDropped(u, SHIPPED_END);
    CallKeeps(u, UnmapImage(SHIPPED_END));
    assert forall p: nat :: 0x400 <= p && 4096 * p < 0x401000 <==> p == 0x400;
  }

  /** What the refused mapping of the header page takes, with its tables in place. */
  lemma RefusedMapping(m0: Mem, m: Mem)
    requires Owned(m) && Rooted(m0) && 0x3ff in m0.pt && 0x3ff in m.pt && m.tables == m0.tables
    ensures var m' := AllocAndMap(m, 0x3ff, IMAGE_FLAGS).0;
            && m'.tables == m.tables && m'.lost == m.lost + (if m.free == {} then {} else {Lowest(m.free)})
            && |m'.lost| == |m.lost| + (if m.free == {} then 0 else 1)
            && m'.free == m.free - (if m.free == {} then {} else {Lowest(m.free)})
  {
    hide EnsureTables, Path, Owned;
    if m.free != {} {
      TablesThere(m.(free := m.free - {Lowest(m.free)}), 0x3ff);
      AllocAndMapKeeps(m, 0x3ff, IMAGE_FLAGS);
    }
  }

  /** With the whole path in place the walk makes no table. */
  lemma TablesThere(m: Mem, page: nat)
    requires Path(page) <= m.tables.Keys
    ensures EnsureTables(m, page, 3) == (m, true)
  {
    assert Levels(page, 1) == {TableFor(page, 1)};
    assert Levels(page, 2) == {TableFor(page, 1), TableFor(page, 2)};
    assert TableFor(page, 1) in Path(page) && TableFor(page, 2) in Path(page) && TableFor(page, 3) in Path(page);
    assert EnsureTables(m, page, 1) == (m, true);
    assert EnsureTables(m, page, 2) == (m, true);
  }

  lemma HappenKeepsCounters(x: Machine, image: seq<byte>, pid: nat)
    ensures var x' := Happen(x, image, ExecBy(pid));
            x'.shared.nextMmap == x.shared.nextMmap && x'.shared.nextId == x.shared.nextId
  {
    hide UnmapRange, LoadRanges, LoadOk, TriedRanges, TriedHeaders;
  }

  // ----- the access checks -----

  /** What the access checks of process pid go by. */
  ghost function ChecksOf(x: Machine, pid: nat): Bounds
    requires pid in x.shared.procs
  {
    Bounds(x.imageEnd, SHIPPED_RW, x.shared.procs[pid].brkEnd, x.shared.procs[pid].areas)
  }

  /** Every range that the image part of the read check accepts is mapped. */
  ghost predicate ImageReadsSound(b: Bounds, m: Mem) {
    forall addr: nat, end: nat | USER_TEXT_BASE <= addr && end <= b.imageEnd :: Accessible(m, addr, end, false)
  }

  /** Every range that the image part of the write check accepts is mapped writable. */
  ghost predicate ImageWritesSound(b: Bounds, m: Mem) {
    forall addr: nat, end: nat | b.rwStart <= addr && end <= b.imageEnd :: Accessible(m, addr, end, true)
  }

  /** In every run of the shipped kernel the image part of both access checks is sound exactly until the first exec
      attempt: from then on the text page is unmapped and still accepted, for every process. */
  lemma ImageChecksSoundUntilExec(regions: seq<MemoryRegion>, image: seq<byte>, hs: seq<Happening>, pid: nat)
    requires |BootFree(regions)| >= 74 && IsShipped(image) && forall h | h in hs :: Proper(h)
    requires pid in Happenings(ShippedMachine(regions), image, hs).shared.procs
    ensures var x := Happenings(ShippedMachine(regions), image, hs);
            var tried := ExecTried(ShippedMachine(regions), image, hs);
            && (ImageReadsSound(ChecksOf(x, pid), x.shared.mem) <==> !tried)
            && (ImageWritesSound(ChecksOf(x, pid), x.shared.mem) <==> !tried)
            && ReadableRange(ChecksOf(x, pid), 0x400000, 4096) && WritableRange(ChecksOf(x, pid), 0x400000, 4096)
  {
    hide BootFree, ShippedMachine, Happenings, ExecTried, Owned, Tidy, IsShipped, Proper, CoversMmap;
    ShippedOverRuns(regions, image, hs);
    var x := Happenings(ShippedMachine(regions), image, hs);
    var m := x.shared.mem;
    if 0x400 in m.pt {
      assert Accessible(m, 0x3ff000, 0x401000, true);
    } else {
      assert PageOf(0x400000) == 0x400;
      assert !Accessible(m, 0x400000, 0x401000, false) && !Accessible(m, 0x400000, 0x401000, true);
    }
  }

  /** And in every run the header page may be written through a call and not read. */
  lemma HeaderPageWriteOnly(regions: seq<MemoryRegion>, image: seq<byte>, hs: seq<Happening>, pid: nat)
    requires |BootFree(regions)| >= 74 && IsShipped(image) && forall h | h in hs :: Proper(h)
    requires pid in Happenings(ShippedMachine(regions), image, hs).shared.procs
    ensures var b := ChecksOf(Happenings(ShippedMachine(regions), image, hs), pid);
            WritableRange(b, 0x3ff000, 4096) && !ReadableRange(b, 0x3ff000, 4096)
  {
    hide BootFree, ShippedMachine, Happenings, ExecTried, Owned, IsShipped, Proper;
    ShippedOverRuns(regions, image, hs);
    var x := Happenings(ShippedMachine(regions), image, hs);
    var b := ChecksOf(x, pid);
    assert TidyUser(ViewOf(x.shared, pid));
    ReadableExactly(b, 0x3ff000, 4096);
    WritableExactly(b, 0x3ff000, 4096);
  }

  // ----- forks -----

  /** In every run of the shipped kernel a fork can succeed exactly from a pointer on the parent's stack page with a
      page for the child, and then the copy lies where the child's pointer says. */
  lemma ShippedForksMirror(regions: seq<MemoryRegion>, image: seq<byte>, hs: seq<Happening>, rsp: u64)
    requires |BootFree(regions)| >= 74 && IsShipped(image) && forall h | h in hs :: Proper(h)
    ensures var m := Happenings(ShippedMachine(regions), image, hs).shared.mem;
            && (CanPrepare(m, rsp) <==> 0x401000 <= rsp < 0x402000 && WithChildPage(m).1 == Mapped)
            && (CanPrepare(m, rsp) ==> CopyTo(rsp) == ChildRsp(rsp))
  {
    hide BootFree, ShippedMachine, Happenings, ExecTried, ShippedInv, IsShipped, Proper, CanPrepare, WithChildPage;
    ShippedOverRuns(regions, image, hs);
    PrepareExactly(Happenings(ShippedMachine(regions), image, hs).shared.mem, rsp);
    if 0x401000 <= rsp < 0x402000 {
      MirrorExactly(rsp);
    }
  }

  /** From below the stack page every fork is refused. Until the first exec it has by then copied a whole page from
      anywhere on the two pages of the image, over the stack of an earlier child; after it, what lies between the
      pointer and the text page. From below the image it copies nothing. */
  lemma ShippedRefusedCopies(regions: seq<MemoryRegion>, image: seq<byte>, hs: seq<Happening>, rsp: u64, n: nat)
    requires |BootFree(regions)| >= 74 && IsShipped(image) && (forall h | h in hs :: Proper(h)) && rsp < 0x401000
    requires Copies(Happenings(ShippedMachine(regions), image, hs).shared.mem, rsp, n)
    ensures var m := Happenings(ShippedMachine(regions), image, hs).shared.mem;
            var tried := ExecTried(ShippedMachine(regions), image, hs);
            && !CanPrepare(m, rsp)
            && (WithChildPage(m).1 == Mapped && rsp >= 0x3ff000 && !tried ==> n == 4096)
            && (WithChildPage(m).1 == Mapped && rsp >= 0x3ff000 && tried ==> n == SaturatingSub(0x400000, rsp))
            && (WithChildPage(m).1 != Mapped || rsp < 0x3ff000 ==> n == 0)
  {
    hide BootFree, ShippedMachine, Happenings, ExecTried, Owned, Tidy, IsShipped, Proper, CanPrepare, WithChildPage;
    ShippedOverRuns(regions, image, hs);
    var m := Happenings(ShippedMachine(regions), image, hs).shared.mem;
    PrepareExactly(m, rsp);
    ChildPageThere(m);
    if WithChildPage(m).1 == Mapped {
      CopyBegins(WithChildPage(m).0.pt, rsp, n);
      if 0x400 !in m.pt && rsp / 4096 == 0x3ff {
        UpToText(WithChildPage(m).0.pt, rsp, n);
      }
    }
  }

  /** A copy from the header page stops at an unmapped text page. */
  lemma UpToText(pt: map<nat, Pte>, rsp: u64, n: nat)
    requires rsp / 4096 == 0x3ff && 0x3ff in pt && 0x400 !in pt && 0x402 in pt && CopyEnds(pt, rsp, n)
    ensures n == 0x400000 - rsp
  {
    var text: nat, next: nat := 0x400000, rsp + n;
    assert PageOf(text) == 0x400 && (text < next ==> PageOf(text) in pt);
    assert next < text ==> PageOf(next) == 0x3ff && PageOf(0x402000 + n) == 0x402;
  }
}
