/**
 The image that ships with the kernel (assets/init.elf), by the bytes of its headers: one PT_LOAD segment of 0x100b
 bytes at 0x3ff000, readable, writable and executable. Booting it, what a boot with little memory leaves, and what exec
 does to it.
 */
module ShippedImage {
  import opened Basics
  import opened FrameBitmap
  import opened Paging
  import opened PageRanges
  import opened UserMemory
  import opened MemoryExactness
  import opened ElfLoader
  import opened ExecStack
  import opened Exec
  import opened Boot
  import opened ReExec
  import opened SharedMemory

  /** The file by its length, the 64 bytes of its header and the 56 bytes of its one program header. */
  ghost predicate IsShipped(image: seq<byte>) {
    && |image| == 5632
    && image[0..8] == [0x7F, 0x45, 0x4C, 0x46, 0x02, 0x01, 0x01, 0]
    && image[8..16] == [0, 0, 0, 0, 0, 0, 0, 0]
    && image[16..24] == [0x02, 0, 0x3E, 0, 0x01, 0, 0, 0]
    && image[24..32] == [0, 0, 0x40, 0, 0, 0, 0, 0]
    && image[32..40] == [0x40, 0, 0, 0, 0, 0, 0, 0]
    && image[40..48] == [0xC0, 0x14, 0, 0, 0, 0, 0, 0]
    && image[48..56] == [0, 0, 0, 0, 0x40, 0, 0x38, 0]
    && image[56..64] == [0x01, 0, 0x40, 0, 0x05, 0, 0x03, 0]
    && image[64..72] == [0x01, 0, 0, 0, 0x07, 0, 0, 0]
    && image[72..80] == [0, 0, 0, 0, 0, 0, 0, 0]
    && image[80..88] == [0, 0xF0, 0x3F, 0, 0, 0, 0, 0]
    && image[88..96] == [0, 0xF0, 0x3F, 0, 0, 0, 0, 0]
    && image[96..104] == [0x0B, 0x10, 0, 0, 0, 0, 0, 0]
    && image[104..112] == [0x0B, 0x10, 0, 0, 0, 0, 0, 0]
    && image[112..120] == [0, 0x10, 0, 0, 0, 0, 0, 0]
  }

  const SHIPPED: Phdr := Phdr(1, 7, 0, 0x3ff000, 0x100b, 0x100b, PAGE)

  const SHIPPED_RANGE: PageRange := PageRange(0x3ff, 2, Flags(true, false))

  /** What those bytes say. */
  lemma ShippedFields(image: seq<byte>)
    requires IsShipped(image)
    ensures |image| == 5632
    ensures CheckHeader(image) == None && Entry(image) == 0x400000 && Phoff(image) == 64 && Phnum(image) == 1
    ensures PhdrInBounds(image, 0) && PhdrAt(image, 0) == SHIPPED
  {
    hide FromLe;
    ShippedEhdrFields(image);
    ShippedPhdrFields(image);
  }

  /** A word of two or four bytes inside a row. */
  lemma WordInRow(image: seq<byte>, at: nat, row: seq<byte>, k: nat, n: nat)
    requires at + 8 <= |image| && image[at..at + 8] == row && k + n <= 8
    ensures Field(image, at + k, n) == FromLe(row[k..k + n])
  {
    hide FromLe;
    var a, b := image[at + k..at + k + n], row[k..k + n];
    forall i | 0 <= i < n ensures a[i] == b[i] {
      assert row[k + i] == image[at..at + 8][k + i];
    }
    assert a == b;
  }

  lemma ShippedEhdrFields(image: seq<byte>)
    requires IsShipped(image)
    ensures CheckHeader(image) == None && Entry(image) == 0x400000 && Phoff(image) == 64 && Phnum(image) == 1
  {
    hide FromLe;
    var row16, row48, row56 := image[16..24], image[48..56], image[56..64];
    WordInRow(image, 16, row16, 0, 2);
    WordInRow(image, 16, row16, 2, 2);
    WordInRow(image, 48, row48, 6, 2);
    WordInRow(image, 56, row56, 0, 2);
    WordsAre(row16[0..2]);
    WordsAre(row16[2..4]);
    WordsAre(row48[6..8]);
    WordsAre(row56[0..2]);
    WordsAre(image[24..32]);
    WordsAre(image[32..40]);
    assert image[0..4] == image[0..8][..4] == [0x7F, 0x45, 0x4C, 0x46];
    assert image[0..8][4] == image[4] && image[0..8][5] == image[5];
  }

  lemma ShippedPhdrFields(image: seq<byte>)
    requires IsShipped(image) && Phoff(image) == 64
    ensures PhdrInBounds(image, 0) && PhdrAt(image, 0) == SHIPPED
  {
    hide FromLe, Phoff;
    var row := image[64..72];
    WordInRow(image, 64, row, 0, 4);
    WordInRow(image, 64, row, 4, 4);
    WordsAre(row[0..4]);
    WordsAre(row[4..8]);
    WordsAre(image[72..80]);
    WordsAre(image[80..88]);
    WordsAre(image[96..104]);
    WordsAre(image[104..112]);
    WordsAre(image[112..120]);
    assert Phoff(image) + 0 * PHENT == 64;
    var p := PhdrAt(image, 0);
    assert p.kind == 1 && p.flags == 7;
    assert p.offset == 0 && p.vaddr == 0x3ff000;
    assert p.filesz == 0x100b && p.memsz == 0x100b && p.align == PAGE;
  }

  lemma ShippedRanges(image: seq<byte>)
    requires IsShipped(image)
    ensures SegmentRanges(image, 0, 1) == [SHIPPED_RANGE] && ImagePagesOf(image) == {0x3ff, 0x400}
    ensures FileWithinMem(image, 1) && CheckHeader(image) == None && Phnum(image) == 1
  {
    ShippedFields(image);
    hide CheckHeader, Phnum, PhdrInBounds, PhdrAt, IsShipped;
    assert LoadableAt(image, 1, 0) && SHIPPED.Pages(0) == SHIPPED_RANGE;
    assert SegmentRanges(image, 0, 0) == [];
    assert [SHIPPED_RANGE][1..] == [];
    assert Span(SHIPPED_RANGE) == {0x3ff, 0x400};
    assert PagesOf([SHIPPED_RANGE]) == {0x3ff, 0x400};
  }

  /** Once the header page 0x3ff is mapped, as boot leaves it, no process can exec the shipped image in any run: the
      page lies below the text base, so no exec drops it, and it is refused. Each attempt leaves the text page
      unmapped. */
  lemma ShippedNeverExecs(s: Shared, evs: seq<SharedMemory.Event>, pid: nat, image: seq<byte>, imageEnd: u64,
                          argv: seq<Bytes>, envp: seq<Bytes>, n: nat)
    requires IsShipped(image) && Owned(s.mem) && Tidy(s) && 0x3ff in s.mem.pt && n <= 1
    requires pid in SharedMemory.Run(s, evs).procs
    ensures var u := ViewOf(SharedMemory.Run(s, evs), pid);
            && !ExecCan(u, imageEnd, image, 0, argv, envp)
            && (imageEnd > USER_TEXT_BASE ==>
                  0x400 !in UserMemory.Run(u, [UnmapImage(imageEnd), LoadImage(TriedRanges(image, 0, n))]).mem.pt)
  {
    hide Owned, Universe, Tidy, SharedMemory.Run, Do, LoadRanges, SegmentRanges, MapRange, HeadersOk, StackSize, Demand;
    BelowTextStaysOverRuns(s, evs, 0x3ff);
    var u := ViewOf(SharedMemory.Run(s, evs), pid);
    var m' := Do(u, UnmapImage(imageEnd)).user.mem;
    ShippedRanges(image);
    DropPages(u, imageEnd);
    TwoCalls(u, imageEnd, TriedRanges(image, 0, n));
    NoRanges(m', image);
    RefusedAtOnce(m');
    assert 0x3ff in m'.pt && 0x3ff in ImagePagesOf(image);
  }

  lemma NoRanges(m: Mem, image: seq<byte>)
    requires |image| >= 64
    ensures LoadRanges(m, SegmentRanges(image, 0, 0)) == (m, Mapped)
  {
  }

  /** A load that starts at a mapped page maps nothing. */
  lemma RefusedAtOnce(m: Mem)
    requires 0x3ff in m.pt
    ensures LoadRanges(m, [SHIPPED_RANGE]).0.pt == m.pt
  {
    hide MapRange;
    MapRangeExactly(m, 0x3ff, 2, SHIPPED_RANGE.flags, false);
    LoadRangesStep(m, [SHIPPED_RANGE]);
    assert InRange(0x3ff, 0x3ff, 2);
  }

  // ----- booting it -----

  lemma PathIs(page: nat)
    ensures Path(page) == {TableFor(page, 1), TableFor(page, 2), TableFor(page, 3)} && |Path(page)| == 3
  {
    var a, b, c := TableFor(page, 1), TableFor(page, 2), TableFor(page, 3);
    assert Levels(page, 1) == {a};
    assert Levels(page, 2) == {a, b};
    assert Path(page) == {a, b, c};
    assert a != b && b != c && a != c;
  }

  /** The kernel heap takes a frame for each of its 64 pages and three for their tables. */
  lemma HeapTakes(m: Mem)
    requires m.pt == map[] && m.tables == map[] && |m.free| >= 67
    ensures var (m1, r) := WithHeap(m);
            r == Mapped && |m1.free| == |m.free| - 67 && m1.tables.Keys == Path(HEAP_PAGE) && PageOf(STACK_LO) !in m1.pt
  {
    hide MapRange, Demand, Path, TablesOf, Missing;
    HeapDemand(m);
    MapRangeExactly(m, HEAP_PAGE, HEAP_PAGES, HEAP_FLAGS, false);
    MapRangePages(m, HEAP_PAGE, HEAP_PAGES, HEAP_FLAGS, false);
    MapRangeTakes(m, HEAP_PAGE, HEAP_PAGES, HEAP_FLAGS, false);
    assert {} + Path(HEAP_PAGE) == Path(HEAP_PAGE);
  }

  lemma HeapDemand(m: Mem)
    requires m.pt == map[] && m.tables == map[]
    ensures var pages := Missing(m.pt, HEAP_PAGE, HEAP_PAGES);
            Demand(m, pages) == 67 && TablesOf(pages) == Path(HEAP_PAGE)
  {
    hide Demand, Path, TablesOf;
    var pages := Missing(m.pt, HEAP_PAGE, HEAP_PAGES);
    MissingAll(m.pt, HEAP_PAGE, HEAP_PAGES);
    DemandInRegion(m, pages, HEAP_PAGE);
    PathIs(HEAP_PAGE);
    assert Absent(m, HEAP_PAGE) == Path(HEAP_PAGE);
    assert HEAP_PAGE in pages;
    OneRegion(pages, HEAP_PAGE);
  }

  lemma OneRegion(pages: set<nat>, page: nat)
    requires page in pages && forall p | p in pages :: p / 512 == page / 512
    ensures TablesOf(pages) == Path(page)
  {
    hide Path;
    forall p | p in pages ensures Path(p) == Path(page) {
      NeighbourTables(page, p);
    }
  }

  /** The stack page takes four frames, since it shares no table with the heap. */
  lemma StackTakes(m: Mem)
    requires m.tables.Keys == Path(HEAP_PAGE) && PageOf(STACK_LO) !in m.pt && |m.free| >= 4
    ensures var (m1, r) := WithStack(m);
            && r == Mapped && |m1.free| == |m.free| - 4 && m1.tables.Keys == Path(HEAP_PAGE) + Path(PageOf(STACK_LO))
            && m1.pt.Keys == m.pt.Keys + {PageOf(STACK_LO)}
  {
    hide AllocAndMap, Path, Absent;
    AllocAndMapExactly(m, PageOf(STACK_LO), HEAP_FLAGS);
    AllocAndMapPages(m, PageOf(STACK_LO), HEAP_FLAGS);
    StackLacksAll(m);
  }

  lemma StackLacksAll(m: Mem)
    requires m.tables.Keys == Path(HEAP_PAGE)
    ensures |Absent(m, PageOf(STACK_LO))| == 3
  {
    hide Path;
    KnownPaths();
    PathIs(PageOf(STACK_LO));
    assert Absent(m, PageOf(STACK_LO)) == Path(PageOf(STACK_LO));
  }

  /** The two pages of the image take three frames: page 0x3ff needs one table of its own. */
  lemma ImageTakes(m: Mem)
    requires m.tables.Keys == Path(HEAP_PAGE) + Path(PageOf(STACK_LO)) && |m.free| >= 3
    requires 0x3ff !in m.pt && 0x400 !in m.pt
    ensures var (m1, r) := LoadRanges(m, [SHIPPED_RANGE]);
            && r == Mapped && |m1.free| == |m.free| - 3 && Path(PageOf(STACK_LO)) <= m1.tables.Keys
            && 0x3ff in m1.pt
  {
    hide MapRange, Demand;
    var pages: set<nat> := {0x3ff, 0x400};
    assert Span(SHIPPED_RANGE) == pages;
    ImageDemand(m);
    SpanExactly(m, SHIPPED_RANGE);
    LoadRangesStep(m, [SHIPPED_RANGE]);
    LoadRangesStep(MapRange(m, 0x3ff, 2, SHIPPED_RANGE.flags, false).0, [SHIPPED_RANGE][1..]);
  }

  lemma ImageDemand(m: Mem)
    requires m.tables.Keys == Path(HEAP_PAGE) + Path(PageOf(STACK_LO))
    ensures Demand(m, {0x3ff, 0x400}) == 3
  {
    hide Path, TablesOf;
    KnownPaths();
    TwoPaths(0x3ff, 0x400);
    var keys := m.tables.Keys;
    assert TableId(2, 0) in keys && TableId(3, 0) in keys && TableId(1, 2) in keys && TableId(1, 1) !in keys;
    assert TablesOf({0x3ff, 0x400}) - keys == {TableId(1, 1)};
    var pages: set<nat> := {0x3ff, 0x400};
    assert |pages| == 2;
  }

  lemma KnownPaths()
    ensures Path(HEAP_PAGE) == {TableId(1, 0x2222222), TableId(2, 0x11111), TableId(3, 0x88)}
    ensures Path(PageOf(STACK_LO)) == {TableId(1, 2), TableId(2, 0), TableId(3, 0)} == Path(0x400)
    ensures Path(0x3ff) == {TableId(1, 1), TableId(2, 0), TableId(3, 0)}
  {
    hide Path;
    PathIs(HEAP_PAGE);
    PathIs(PageOf(STACK_LO));
    PathIs(0x3ff);
    NeighbourTables(PageOf(STACK_LO), 0x400);
  }

  lemma TwoPaths(a: nat, b: nat)
    ensures TablesOf({a, b}) == Path(a) + Path(b)
  {
    hide Path;
  }

  /** Memory after the kernel heap, the user stack and the shipped image are in place. */
  ghost function ShippedMemory(regions: seq<MemoryRegion>): Mem {
    WithImage(WithHeap(Untouched(regions)).0, [SHIPPED_RANGE], true).0
  }

  /** With 74 usable frames or more the shipped kernel boots, with its header page mapped, and leaves all but 74 of them
      free. */
  lemma ShippedBoots(regions: seq<MemoryRegion>)
    requires |BootFree(regions)| >= 74
    ensures var m := Untouched(regions);
            && WithHeap(m).1 == Mapped && WithStack(WithHeap(m).0).1 == Mapped
            && LoadRanges(WithStack(WithHeap(m).0).0, [SHIPPED_RANGE]).1 == Mapped
    ensures var u := FirstUser(ShippedMemory(regions));
            && UserMemory.Boot(u) && UserInv(u) && 0x3ff in u.mem.pt && 0x401 in u.mem.pt
            && |u.mem.free| == |BootFree(regions)| - 74 && WindowTables(u.mem) == 0
  {
    hide Owned, Universe, MapRange, LoadRanges, BootFree, AllocAndMap, Path, UserInv, UserMemory.Boot, Rooted;
    var m := Untouched(regions);
    var m1 := WithHeap(m).0;
    HeapTakes(m);
    MapRangePages(m, HEAP_PAGE, HEAP_PAGES, HEAP_FLAGS, false);
    StackTakes(m1);
    ImageTakes(WithStack(m1).0);
    UntouchedOwned(regions);
    HeapSteps(m);
    BootWindow(m1, [SHIPPED_RANGE], true);
    BootSteps(m1, [SHIPPED_RANGE], true);
    NeighbourTables(PageOf(STACK_LO), PageOf(USER_BRK_BASE));
    assert Absent(ShippedMemory(regions), PageOf(USER_BRK_BASE)) == {};
  }

  /** With that much memory the shipped image can be loaded, so the first process runs it and not the built-in
      program. */
  lemma ShippedLoads(regions: seq<MemoryRegion>, image: seq<byte>)
    requires IsShipped(image) && |BootFree(regions)| >= 74
    ensures LoadOk(WithStack(WithHeap(Untouched(regions)).0).0, image, 0)
  {
    hide IsShipped, BootFree, WithHeap, WithStack, LoadFits, LoadRanges, SegmentRanges, CheckHeader, PhdrAt, Phoff,
         Phnum, PhdrInBounds, UserMemory.Boot, UserInv, WindowTables;
    var m := WithStack(WithHeap(Untouched(regions)).0).0;
    ShippedFields(image);
    ShippedRanges(image);
    ShippedBoots(regions);
    LoadRangesExactly(m, [SHIPPED_RANGE]);
    ShippedHeadersOk(m, image);
    assert LoadableAt(image, 1, 0) && SHIPPED.Holds(64);
  }

  lemma ShippedHeadersOk(m: Mem, image: seq<byte>)
    requires |image| == 5632 && Phoff(image) == 64 && PhdrInBounds(image, 0) && PhdrAt(image, 0) == SHIPPED
    requires SegmentRanges(image, 0, 1) == [SHIPPED_RANGE] && PagesOf([SHIPPED_RANGE]) == {0x3ff, 0x400}
    ensures HeadersOk(m, image, 0, 1)
  {
    hide PhdrAt, Phoff, PhdrInBounds, SegmentRanges, PagesOf;
    assert SHIPPED.Seg(0) == 0x3ff000;
    forall va: nat | 0x3ff000 <= va < 0x3ff000 + 0x100b ensures Canonical(va) && PageOf(va) in {0x3ff, 0x400} {
    }
  }

  /** Booted with two frames to spare, the parent of the fork run ends up with a check that accepts an unmapped page. */
  lemma ShippedForkBreaks(regions: seq<MemoryRegion>)
    requires |BootFree(regions)| >= 76
    ensures var u := FirstUser(ShippedMemory(regions));
            var s := SharedMemory.Run(Shared(u.mem, map[1 := Own(u.brkEnd, u.areas)], u.nextMmap, u.nextId), ForkRun());
            && 1 in s.procs && CoversMmap(s.procs[1].areas, false, USER_MMAP_BASE, USER_MMAP_BASE + PAGE)
            && PageOf(USER_MMAP_BASE) !in s.mem.pt
  {
    hide ShippedMemory, BootFree, UserMemory.Boot, UserInv, WindowTables, SharedMemory.Run;
    ShippedBoots(regions);
    ForkedMunmapBreaksParent(FirstUser(ShippedMemory(regions)));
  }

  // ----- what a boot with little memory leaves -----

  /** A memory map with 75 usable frames. */
  const SMALL_MAP: seq<MemoryRegion> := [MemoryRegion(true, 1, 76)]

  lemma SmallMapFrames()
    ensures |BootFree(SMALL_MAP)| == 75
  {
    assert forall i: nat :: InUsable(SMALL_MAP, i) <==> 1 <= i < 76 by {
      assert SMALL_MAP[0] in SMALL_MAP;
    }
    assert BootFree(SMALL_MAP) == Missing(map[], 1, 75);
    MissingAll(map[], 1, 75);
  }

  /** The state of the first process after that boot: one frame is free. */
  ghost function SmallBoot(): User {
    FirstUser(ShippedMemory(SMALL_MAP))
  }

  /** A two-page mmap then fails and leaves its first page mapped with no area to its name. */
  lemma HalfwayMmapLeaks()
    ensures var o := MmapSpec(SmallBoot(), 0, 2 * PAGE, 0);
            UserMemory.Boot(SmallBoot()) && o.ret == ENOMEM && !WindowExact(o.user)
  {
    hide UserMemory.Boot, UserInv, WindowExact, HeapExact, ShippedMemory, BootFree;
    SmallMapFrames();
    ShippedBoots(SMALL_MAP);
    OneFrameLeft(SmallBoot());
  }

  lemma OneFrameLeft(u: User)
    requires UserMemory.Boot(u) && |u.mem.free| == 1 && WindowTables(u.mem) == 0
    ensures var o := MmapSpec(u, 0, 2 * PAGE, 0); o.ret == ENOMEM && !WindowExact(o.user)
  {
    hide UserMemory.Boot, UserInv, WindowExact, HeapExact, MmapSpec, WindowTables, AreaFits, StopsHalfway;
    BootMeetsInvariants(u);
    FirstPageFree(u);
    assert MmapTarget(u, 0, 2 * PAGE) == Some(USER_MMAP_BASE) && PagesFor(2 * PAGE) == 2;
    NoRoomForTwo(u.mem, PageOf(USER_MMAP_BASE));
    MmapKeepsExact(u, 0, 2 * PAGE, 0);
    MmapExactly(u, 0, 2 * PAGE, 0);
    MmapFailsWith(u);
  }

  lemma NoRoomForTwo(m: Mem, first: nat)
    requires |m.free| == 1
    ensures !AreaFits(m, first, 2)
  {
  }

  lemma MmapFailsWith(u: User)
    requires MmapTarget(u, 0, 2 * PAGE).Some? && MmapSpec(u, 0, 2 * PAGE, 0).mapping != Mapped
    ensures MmapSpec(u, 0, 2 * PAGE, 0).ret == ENOMEM
  {
    hide MmapSpec;
    MmapResult(u, 0, 2 * PAGE, 0);
  }

  lemma FirstPageFree(u: User)
    requires UserMemory.Boot(u)
    ensures u.nextMmap == USER_MMAP_BASE && PageOf(USER_MMAP_BASE) !in u.mem.pt && BrkInWindow(u)
    ensures u.brkEnd == USER_BRK_BASE && |Missing(u.mem.pt, PageOf(USER_BRK_BASE), 2)| == 2
  {
    hide Owned;
    MissingAll(u.mem.pt, PageOf(USER_BRK_BASE), 2);
  }

  lemma TwoMorePages(u: User)
    requires UserMemory.Boot(u)
    ensures GrowPagesOf(USER_BRK_BASE, USER_BRK_BASE + 2 * PAGE) == 2
    ensures HeapFits(u.mem, PageOf(USER_BRK_BASE), 2) <==> 2 + WindowTables(u.mem) <= |u.mem.free|
  {
    hide UserMemory.Boot, WindowTables, Missing;
    FirstPageFree(u);
  }

  /** A grow by two pages then fails and leaves its first page mapped beyond the unchanged heap end. */
  lemma HalfwayGrowLeaks()
    ensures var o := BrkSpec(SmallBoot(), USER_BRK_BASE + 2 * PAGE);
            && UserMemory.Boot(SmallBoot()) && o.ret == ENOMEM && o.user.brkEnd == USER_BRK_BASE
            && !HeapExact(o.user.mem, o.user.brkEnd)
  {
    hide UserMemory.Boot, UserInv, WindowExact, HeapExact, BrkSpec, ShippedMemory, BootFree, WindowTables, Missing,
         HeapFits, GrowPagesOf, StopsHalfway;
    SmallMapFrames();
    ShippedBoots(SMALL_MAP);
    var u := SmallBoot();
    BootMeetsInvariants(u);
    FirstPageFree(u);
    TwoMorePages(u);
    GrowKeepsExact(u, USER_BRK_BASE + 2 * PAGE);
    GrowExactly(u, USER_BRK_BASE + 2 * PAGE);
    BrkResult(u, USER_BRK_BASE + 2 * PAGE);
  }
}
