/**
 From the memory map to the first process (src/main.rs, src/heap.rs, src/user.rs): kernel heap, user stack, init image
 or built-in program, and the state in which the first process starts.
 */
module Boot {
  import opened Basics
  import opened FrameBitmap
  import opened Paging
  import opened PageRanges
  import opened UserMemory
  import opened AddressSpace
  import opened ProcessMemory
  import opened ElfLoader
  import opened ExecStack
  import opened Exec

  /** HEAP_START and HEAP_PAGES. The kernel heap lives in the same page table; that its pages are closed to user mode is
      not part of `Flags`. */
  const HEAP_PAGE: nat := 0x4_4444_4440
  const HEAP_PAGES: nat := 64

  /** Text of the built-in program: readable and executable. */
  const TEXT_FLAGS: Flags := Flags(false, false)

  ghost function WithHeap(m: Mem): (Mem, MapResult) {
    MapRange(m, HEAP_PAGE, HEAP_PAGES, HEAP_FLAGS, false)
  }

  /** `map_user_stack` */
  ghost function WithStack(m: Mem): (Mem, MapResult) {
    AllocAndMap(m, PageOf(STACK_LO), HEAP_FLAGS)
  }

  /** `map_user_blob` */
  ghost function WithText(m: Mem): (Mem, MapResult) {
    AllocAndMap(m, PageOf(USER_TEXT_BASE), TEXT_FLAGS)
  }

  /** Memory once the ranges of the image have been tried and, if the load failed, the built-in program is mapped. */
  ghost function WithImage(m: Mem, ranges: seq<PageRange>, loaded: bool): (Mem, MapResult) {
    var m1 := LoadRanges(WithStack(m).0, ranges).0;
    if loaded then (m1, Mapped) else WithText(m1)
  }

  /** The steps of boot, from any memory: no frame appears or disappears, every mapped page keeps its tables, earlier
      pages and the stack stay mapped, and new pages are those of the stack, the image and the built-in text only. */
  lemma BootSteps(m: Mem, ranges: seq<PageRange>, loaded: bool)
    requires Owned(m) && WithStack(m).1 == Mapped
    ensures var m' := WithImage(m, ranges, loaded).0;
            && Balanced(m, WithStack(m).0) && Balanced(m, m')
            && (Rooted(m) ==> Rooted(m'))
            && (forall p | p in m.pt :: p in m'.pt && m'.pt[p] == m.pt[p])
            && PageOf(STACK_LO) in m'.pt && m'.pt[PageOf(STACK_LO)].flags == HEAP_FLAGS
            && forall p | p in m'.pt && p !in m.pt ::
                 p == PageOf(STACK_LO) || p == PageOf(USER_TEXT_BASE) || InSome(ranges, p, m'.pt[p].flags)
  {
    hide Owned, Universe, AllocAndMap, LoadRanges, Rooted;
    var m1 := WithStack(m).0;
    AllocAndMapKeeps(m, PageOf(STACK_LO), HEAP_FLAGS);
    AllocAndMapPages(m, PageOf(STACK_LO), HEAP_FLAGS);
    LoadRangesKeeps(m1, ranges);
    LoadRangesPages(m1, ranges);
    var m2 := LoadRanges(m1, ranges).0;
    AllocAndMapKeeps(m2, PageOf(USER_TEXT_BASE), TEXT_FLAGS);
    AllocAndMapPages(m2, PageOf(USER_TEXT_BASE), TEXT_FLAGS);
    if Rooted(m) {
      AllocAndMapRooted(m, PageOf(STACK_LO), HEAP_FLAGS);
      LoadRangesRooted(m1, ranges);
      AllocAndMapRooted(m2, PageOf(USER_TEXT_BASE), TEXT_FLAGS);
    }
  }

  /** The window of heap and mmap areas is free. */
  ghost predicate WindowFree(pt: map<nat, Pte>) {
    forall p | PageOf(USER_BRK_BASE) <= p < PageOf(USER_MMAP_LIMIT) :: p !in pt
  }

  function FirstUser(m: Mem): User {
    User(m, USER_BRK_BASE, [], USER_MMAP_BASE, 1)
  }

  lemma BootWindow(m: Mem, ranges: seq<PageRange>, loaded: bool)
    requires Owned(m) && WithStack(m).1 == Mapped && WindowFree(m.pt)
    requires forall r | r in ranges :: Avoids(r, PageOf(USER_BRK_BASE), PageOf(USER_MMAP_LIMIT))
    ensures var u := FirstUser(WithImage(m, ranges, loaded).0); UserMemory.Boot(u) && UserInv(u)
  {
    hide Owned, Universe, WithStack, WithImage, UserInv;
    BootSteps(m, ranges, loaded);
    var u := FirstUser(WithImage(m, ranges, loaded).0);
    forall p | PageOf(USER_BRK_BASE) <= p < PageOf(USER_MMAP_LIMIT) ensures p !in u.mem.pt {
      assert p in u.mem.pt ==> InSome(ranges, p, u.mem.pt[p].flags);
    }
    BootMeetsInvariants(u);
  }

  /** One page at the text base that starts with the built-in program; the rest of it, and all other memory, is as it
      was. */
  method MapUserBlob(s: Space, blob: seq<byte>) returns (r: MapResult)
    requires s.Valid() && Owned(s.View()) && |blob| <= PAGE
    modifies s, s.frames, s.frames.bitmap
    ensures s.Valid() && Owned(s.View())
    ensures (s.View(), r) == WithText(old(s.View()))
    ensures r == Mapped ==>
              forall va: nat | USER_TEXT_BASE <= va < USER_TEXT_BASE + |blob| ::
                ReadVirt(s.pt, s.ram, va) == Some(blob[va - USER_TEXT_BASE])
    ensures forall va: nat | PageOf(va) in s.pt && !(USER_TEXT_BASE <= va < USER_TEXT_BASE + |blob|) ::
              ReadVirt(s.pt, s.ram, va) == ReadVirt(s.pt, old(s.ram), va)
    ensures r != Mapped ==> s.ram == old(s.ram)
    ensures Confined(old(s.View()), old(s.ram), s.View(), s.ram)
  {
    hide Owned, Universe, AllocAndMap, ReadVirt, Confined;
    AllocAndMapKeeps(s.View(), PageOf(USER_TEXT_BASE), TEXT_FLAGS);
    AllocAndMapPages(s.View(), PageOf(USER_TEXT_BASE), TEXT_FLAGS);
    r := s.AllocateAndMap(PageOf(USER_TEXT_BASE), TEXT_FLAGS);
    ConfinedQuietly(old(s.View()), s.View(), s.ram);
    if r != Mapped {
      return;
    }
    for i := 0 to |blob|
      invariant Confined(old(s.View()), old(s.ram), s.View(), s.ram)
      invariant s.Valid() && s.View() == WithText(old(s.View())).0
      invariant forall va: nat | USER_TEXT_BASE <= va < USER_TEXT_BASE + i ::
                  ReadVirt(s.pt, s.ram, va) == Some(blob[va - USER_TEXT_BASE])
      invariant forall va: nat | PageOf(va) in s.pt && !(USER_TEXT_BASE <= va < USER_TEXT_BASE + i) ::
                  ReadVirt(s.pt, s.ram, va) == ReadVirt(s.pt, old(s.ram), va)
    {
      ghost var before := s.ram;
      var ok := s.WriteByte(USER_TEXT_BASE + i, blob[i]);
      ConfinedTwice(old(s.View()), old(s.ram), s.View(), before, s.View(), s.ram);
      assert ok by {
        assert PageOf(USER_TEXT_BASE + i) == PageOf(USER_TEXT_BASE);
      }
      assert forall va: nat | USER_TEXT_BASE <= va < USER_TEXT_BASE + i :: PageOf(va) == PageOf(USER_TEXT_BASE);
    }
  }

  /** Every byte outside the skipped pages: the image's, as far as it was copied, or else the one that was there, and
      zero on a page that the image brought. */
  ghost predicate BootBytes(pt: map<nat, Pte>, ram: map<nat, byte>, pt': map<nat, Pte>, ram': map<nat, byte>,
                            image: seq<byte>, n: nat, c: nat, skip: set<nat>) {
    forall va: nat | PageOf(va) in pt' && PageOf(va) !in skip ::
      var b := ImageByte(image, 0, n, c, va);
      ReadVirt(pt', ram', va) == if b.Some? then b else Cleared(pt, ram, va)
  }

  /** The first process, started from memory m: the loader returned `load`, having stopped at header k if it failed,
      with the pages of n headers tried. Either the image is in memory, or the built-in program in its place; the
      bounds are its own, and memory that was mapped before is as it was. */
  ghost predicate Booted(m: Mem, ram: map<nat, byte>, p: Process, image: seq<byte>, blob: seq<byte>,
                         load: Result<ElfLoadedMeta, ElfError>, k: nat, n: nat)
    reads p, p.space, p.space.frames, p.space.frames.bitmap
  {
    var s := p.space;
    var m1 := WithStack(m).0;
    && p.View() == FirstUser(WithImage(m, TriedRanges(image, 0, n), load.Success?).0)
    && Universe(s.View()) == Universe(m) && Confined(m, ram, s.View(), s.ram)
    && PageOf(STACK_LO) in s.pt && s.pt[PageOf(STACK_LO)].flags == HEAP_FLAGS
    && (load.Success? ==>
          && CheckHeader(image) == None && n == Phnum(image) && LoadedUpTo(s.pt, s.ram, image, 0, Phnum(image))
          && MetaOf(image, 0, k, load.value)
          && p.imageEnd == Max(load.value.imageEnd, USER_TEXT_BASE + PAGE) && p.rwStart == load.value.rwMin
          && BootBytes(m1.pt, ram, s.pt, s.ram, image, Phnum(image), 0, {}))
    && (load.Failure? ==>
          && p.imageEnd == p.rwStart == USER_TEXT_BASE + PAGE
          && (forall va: nat | USER_TEXT_BASE <= va < USER_TEXT_BASE + |blob| ::
                ReadVirt(s.pt, s.ram, va) == Some(blob[va - USER_TEXT_BASE]))
          && (forall va: nat | PageOf(va) == PageOf(USER_TEXT_BASE) && USER_TEXT_BASE + |blob| <= va ::
                ReadVirt(s.pt, s.ram, va) == ReadVirt(s.pt, ram, va))
          && BootBytes(m1.pt, ram, s.pt, s.ram, image, k, CopiedThere(m1, image, 0, k), {PageOf(USER_TEXT_BASE)}))
    && (WithinSegments(image) ==> SameView(m.pt, ram, s.pt, s.ram))
  }

  /** What the loader reported, from memory m1 in which the stack is mapped. */
  ghost predicate LoadReport(m1: Mem, image: seq<byte>, load: Result<ElfLoadedMeta, ElfError>, k: nat, n: nat) {
    && (load.Success? <==> LoadOk(m1, image, 0))
    && (CheckHeader(image).Some? ==> load == Failure(CheckHeader(image).value))
    && (CheckHeader(image) == None ==> n <= Phnum(image))
    && (CheckHeader(image) == None && load.Failure? ==>
          Justified(m1, image, 0, k, load.error) && n == Tried(image, 0, k))
  }

  /** From any memory with single ownership to the first process: the user stack is mapped, init is loaded or the
      built-in program put in its place, and no frame is lost sight of. None stands for a panic. If no segment of the
      image lies in the heap or mmap window, the process starts in a state from which the run results hold. */
  method BootProcess(space: Space, image: seq<byte>, blob: seq<byte>)
      returns (p: Option<Process>, ghost load: Result<ElfLoadedMeta, ElfError>, ghost k: nat, ghost n: nat)
    requires space.Valid() && Owned(space.View()) && |blob| <= PAGE
    modifies space, space.frames, space.frames.bitmap
    ensures p == None <==>
            || WithStack(old(space.View())).1 != Mapped || load == Failure(Panic)
            || WithImage(old(space.View()), TriedRanges(image, 0, n), load.Success?).1 != Mapped
    ensures WithStack(old(space.View())).1 == Mapped ==> LoadReport(WithStack(old(space.View())).0, image, load, k, n)
    ensures p.Some? ==>
              && p.value.space == space && space.Valid() && Owned(space.View())
              && Booted(old(space.View()), old(space.ram), p.value, image, blob, load, k, n)
    ensures p.Some? && SegmentsAvoid(image, 0, USER_BRK_BASE, USER_MMAP_LIMIT) && WindowFree(old(space.pt)) ==>
              p.value.Valid() && UserMemory.Boot(p.value.View())
  {
    hide Owned, Universe, AllocAndMap, LoadRanges, ReadVirt, LoadedUpTo, MetaOf, CheckHeader, UserInv, UserMemory.Boot,
         Justified, SumsFit, FileWithinMem, SameView, Avoids, FreeSet, SegmentsAvoid, Phnum, LoadOk, SegmentRanges,
         WindowFree, Rooted, Written, BootBytes, CopiedAt, Tried, Confined;
    load, k, n := Failure(Panic), 0, 0;
    ghost var m, ram := space.View(), space.ram;
    AllocAndMapPages(m, PageOf(STACK_LO), HEAP_FLAGS);
    AllocAndMapKeeps(m, PageOf(STACK_LO), HEAP_FLAGS);
    var stack := space.AllocateAndMap(PageOf(STACK_LO), HEAP_FLAGS);
    ConfinedQuietly(m, space.View(), ram);
    ghost var m1 := space.View();
    if stack != Mapped {
      return None, load, k, n;
    }
    BootSteps(m, [], true);
    NothingTried(space.View());
    ghost var pt1 := space.pt;
    var loaded;
    loaded, k, n := LoadElfMapped(space, image, 0);
    ConfinedTwice(m, ram, m1, ram, space.View(), space.ram);
    load := loaded;
    ghost var ranges := TriedRanges(image, 0, n);
    BootSteps(m, ranges, loaded.Success?);
    if loaded == Failure(Panic) {
      return None, load, k, n;
    }
    LoadBytes(m.pt, pt1, ram, space.pt, space.ram, image, if loaded.Success? then Phnum(image) else k,
              if loaded.Success? then 0 else CopiedThere(WithStack(m).0, image, 0, k));
    if loaded.Failure? {
      ghost var m2, pt2, ram2 := space.View(), space.pt, space.ram;
      var text := MapUserBlob(space, blob);
      ConfinedTwice(m, ram, m2, ram2, space.View(), space.ram);
      if text != Mapped {
        return None, load, k, n;
      }
      AllocAndMapPages(LoadRanges(WithStack(m).0, ranges).0, PageOf(USER_TEXT_BASE), TEXT_FLAGS);
      BlobBytes(m.pt, pt1, ram, pt2, ram2, space.pt, space.ram, image, |blob|, k,
                CopiedThere(WithStack(m).0, image, 0, k));
      TextTail(m, ram, m2, ram2, space.View(), space.ram, |blob|);
    }
    var init := new Process(space);
    if loaded.Success? {
      MetaInRange(image, 0, k, loaded.value);
      init.ApplyUserMeta(loaded.value.imageEnd, loaded.value.rwMin);
    }
    if SegmentsAvoid(image, 0, USER_BRK_BASE, USER_MMAP_LIMIT) && WindowFree(m.pt) {
      TriedAvoid(image, n);
      BootWindow(m, ranges, loaded.Success?);
    }
    p := Some(init);
  }

  /** The rest of the text page shows what its frame held at the start. */
  lemma TextTail(m: Mem, ram: map<nat, byte>, m2: Mem, ram2: map<nat, byte>, m3: Mem, ram3: map<nat, byte>, len: nat)
    requires Confined(m, ram, m2, ram2) && m2.free != {} && PageOf(USER_TEXT_BASE) in m3.pt
    requires m3.pt[PageOf(USER_TEXT_BASE)].frame == Lowest(m2.free)
    requires forall va: nat | PageOf(va) in m3.pt && !(USER_TEXT_BASE <= va < USER_TEXT_BASE + len) ::
               ReadVirt(m3.pt, ram3, va) == ReadVirt(m3.pt, ram2, va)
    ensures forall va: nat | PageOf(va) == PageOf(USER_TEXT_BASE) && USER_TEXT_BASE + len <= va ::
              ReadVirt(m3.pt, ram3, va) == ReadVirt(m3.pt, ram, va)
  {
    hide Universe;
    var f := m3.pt[PageOf(USER_TEXT_BASE)].frame;
    forall va: nat | PageOf(va) == PageOf(USER_TEXT_BASE)
      ensures ReadVirt(m3.pt, ram2, va) == ReadVirt(m3.pt, ram, va)
    {
      assert PhysOf(m3.pt[PageOf(va)], va) / PAGE == f;
    }
  }

  /** Memory after the load. */
  lemma LoadBytes(pt: map<nat, Pte>, pt1: map<nat, Pte>, ram: map<nat, byte>, pt2: map<nat, Pte>, ram2: map<nat, byte>,
                  image: seq<byte>, n: nat, c: nat)
    requires forall p | p in pt :: p in pt1 && pt1[p] == pt[p]
    requires CheckHeader(image).Some? ==> pt2 == pt1 && ram2 == ram
    requires CheckHeader(image) == None ==> Written(pt1, ram, pt2, ram2, image, 0, n, c)
    requires CheckHeader(image) == None && FileWithinMem(image, Phnum(image)) ==> SameView(pt1, ram, pt2, ram2)
    ensures BootBytes(pt1, ram, pt2, ram2, image, n, c, {})
    ensures WithinSegments(image) ==> SameView(pt, ram, pt2, ram2)
  {
    hide CheckHeader, FileByteTo, FileWithinMem, Phnum;
  }

  /** The built-in program over it. */
  lemma BlobBytes(pt: map<nat, Pte>, pt1: map<nat, Pte>, ram: map<nat, byte>, pt2: map<nat, Pte>, ram2: map<nat, byte>,
                  pt3: map<nat, Pte>, ram3: map<nat, byte>, image: seq<byte>, len: nat, n: nat, c: nat)
    requires BootBytes(pt1, ram, pt2, ram2, image, n, c, {}) && len <= PAGE
    requires PageOf(USER_TEXT_BASE) !in pt2 && PageOf(USER_TEXT_BASE) in pt3
    requires pt3 == pt2[PageOf(USER_TEXT_BASE) := pt3[PageOf(USER_TEXT_BASE)]]
    requires forall va: nat | PageOf(va) in pt3 && !(USER_TEXT_BASE <= va < USER_TEXT_BASE + len) ::
               ReadVirt(pt3, ram3, va) == ReadVirt(pt3, ram2, va)
    requires WithinSegments(image) ==> SameView(pt, ram, pt2, ram2)
    ensures BootBytes(pt1, ram, pt3, ram3, image, n, c, {PageOf(USER_TEXT_BASE)})
    ensures WithinSegments(image) ==> SameView(pt, ram, pt3, ram3)
  {
    hide ImageByte, Cleared, WithinSegments;
    assert forall va: nat | PageOf(va) in pt2 ::
        PageOf(va) != PageOf(USER_TEXT_BASE) && ReadVirt(pt3, ram2, va) == ReadVirt(pt2, ram2, va);
  }

  lemma TriedAvoid(image: seq<byte>, n: nat)
    requires SegmentsAvoid(image, 0, USER_BRK_BASE, USER_MMAP_LIMIT)
    requires CheckHeader(image) == None ==> n <= Phnum(image)
    ensures forall r | r in TriedRanges(image, 0, n) :: Avoids(r, PageOf(USER_BRK_BASE), PageOf(USER_MMAP_LIMIT))
  {
    hide CheckHeader, SegmentsAvoid, SegmentRanges, Phnum, Avoids;
    if CheckHeader(image) == None {
      RangesAvoid(image, 0, n, USER_BRK_BASE, USER_MMAP_LIMIT);
    }
  }

  /** Memory as the allocator leaves it at boot. */
  ghost function Untouched(regions: seq<MemoryRegion>): Mem {
    Mem(BootFree(regions), map[], map[], {})
  }

  lemma UntouchedOwned(regions: seq<MemoryRegion>)
    ensures var m := Untouched(regions); Owned(m) && Rooted(m) && Universe(m) == BootFree(regions)
  {
    var m := Untouched(regions);
    assert UserFrames(m) == {} && TableFrames(m) == {};
  }

  lemma HeapSteps(m: Mem)
    requires Owned(m) && Rooted(m) && WindowFree(m.pt)
    ensures var m' := WithHeap(m).0; Balanced(m, m') && Rooted(m') && WindowFree(m'.pt)
  {
    hide Owned, Universe, MapRange, Rooted;
    MapRangeKeeps(m, HEAP_PAGE, HEAP_PAGES, HEAP_FLAGS, false);
    MapRangePages(m, HEAP_PAGE, HEAP_PAGES, HEAP_FLAGS, false);
    MapRangeRooted(m, HEAP_PAGE, HEAP_PAGES, HEAP_FLAGS, false);
  }

  /** The whole of boot: allocator, kernel heap, first process. Every boot frame is accounted for in the state the first
      process starts in. */
  method BootKernel(regions: seq<MemoryRegion>, ram: map<nat, byte>, image: seq<byte>, blob: seq<byte>)
      returns (p: Option<Process>, ghost load: Result<ElfLoadedMeta, ElfError>, ghost k: nat, ghost n: nat)
    requires |blob| <= PAGE && forall a: nat :: a in ram <==> a < RAM_BYTES
    ensures p == None <==>
            || WithHeap(Untouched(regions)).1 != Mapped || WithStack(WithHeap(Untouched(regions)).0).1 != Mapped
            || load == Failure(Panic)
            || WithImage(WithHeap(Untouched(regions)).0, TriedRanges(image, 0, n), load.Success?).1 != Mapped
    ensures WithHeap(Untouched(regions)).1 == Mapped && WithStack(WithHeap(Untouched(regions)).0).1 == Mapped ==>
              LoadReport(WithStack(WithHeap(Untouched(regions)).0).0, image, load, k, n)
    ensures p.Some? ==>
              && p.value.space.Valid() && Owned(p.value.space.View())
              && Universe(p.value.space.View()) == BootFree(regions)
              && Booted(WithHeap(Untouched(regions)).0, ram, p.value, image, blob, load, k, n)
    ensures p.Some? && SegmentsAvoid(image, 0, USER_BRK_BASE, USER_MMAP_LIMIT) ==>
              p.value.Valid() && UserMemory.Boot(p.value.View())
  {
    hide Owned, Universe, MapRange, WithStack, WithImage, BootFree, UserInv, UserMemory.Boot, SegmentsAvoid, LoadReport,
         CheckHeader, TriedRanges, FreeSet, ReadVirt, LoadedUpTo, MetaOf, Rooted, Phnum, BootBytes, SameView,
         WithinSegments;
    load, k, n := Failure(Panic), 0, 0;
    var frames := new BitmapFrameAllocator(regions);
    var space := new Space(frames, ram);
    UntouchedOwned(regions);
    HeapSteps(Untouched(regions));
    var heap := space.MapPages(HEAP_PAGE, HEAP_PAGES, HEAP_FLAGS, false);
    if heap != Mapped {
      return None, load, k, n;
    }
    p, load, k, n := BootProcess(space, image, blob);
  }

  // ----- exec of the running image -----

  /** The image was loaded once, into memory `before`; what was mapped then, the image's pages below the heap and the
      stack page are mapped, the stack is no part of it, and `imageEnd` is what the loader stored for it. */
  ghost predicate RunningImage(m: Mem, before: Mem, image: seq<byte>, imageEnd: nat) {
    && LoadOk(before, image, 0) && (forall p | p in before.pt :: p in m.pt)
    && (forall p | p in PagesOf(SegmentRanges(image, 0, Phnum(image))) && p < PageOf(USER_BRK_BASE) :: p in m.pt)
    && PageOf(STACK_LO) in m.pt && PageOf(STACK_LO) !in PagesOf(SegmentRanges(image, 0, Phnum(image)))
    && exists end: nat :: IsImageEnd(image, 0, Phnum(image), end) && imageEnd == Max(end, USER_TEXT_BASE + PAGE)
  }

  /** Boot leaves the image running. */
  lemma BootRunsImage(m: Mem, image: seq<byte>, k: nat, meta: ElfLoadedMeta)
    requires |image| >= 64 && MetaOf(image, 0, k, meta)
    requires Owned(m) && WithStack(m).1 == Mapped && LoadOk(WithStack(m).0, image, 0)
    ensures RunningImage(WithImage(m, SegmentRanges(image, 0, Phnum(image)), true).0, WithStack(m).0, image,
                         Max(meta.imageEnd, USER_TEXT_BASE + PAGE))
  {
    hide Owned, AllocAndMap, LoadRanges, SegmentRanges, IsImageEnd, IsRwMin, IsPhdrVa, HeadersOk, CheckHeader, Phnum,
         Demand, Entry, PhdrAt, Phoff;
    var ranges := SegmentRanges(image, 0, Phnum(image));
    AllocAndMapPages(m, PageOf(STACK_LO), HEAP_FLAGS);
    LoadRangesExactly(WithStack(m).0, ranges);
    LoadRangesKeys(WithStack(m).0, ranges);
    var rw: Option<nat> :| MetaFor(image, 0, Phnum(image), k, meta.imageEnd, rw, Some(meta.phdr));
  }
}
