/**
 A fork that succeeds from below the stack page and leaves the copy where the child does not look: an ELF file, byte by
 byte, that the kernel boots and with which this happens.
 */
module LowFork {
  import opened Basics
  import opened FrameBitmap
  import opened Paging
  import opened PageRanges
  import opened UserMemory
  import opened ForkStack
  import opened ElfLoader
  import opened ElfFormat
  import opened Boot
  import opened ShippedImage

  const IMAGE_FLAGS: Flags := Flags(true, false)

  /** An executable of the text page 0x400, which holds the file, and the gap page 0x403, which is all zeros. */
  const TWO_EHDR: Ehdr :=
    Ehdr([0x7F, 0x45, 0x4C, 0x46, 2, 1, 1, 0, 0, 0, 0, 0, 0, 0, 0, 0], 2, 62, 1, 0x400000, 64, 0, 0, 64, 56, 2, 0, 0, 0)

  const TWO_PHDRS: seq<RawPhdr> :=
    [RawPhdr(1, 7, 0, 0x400000, 0, 176, 176, 4096), RawPhdr(1, 7, 0, 0x403000, 0, 0, 4096, 4096)]

  const TWO_PAGES: seq<PageRange> := [PageRange(0x400, 1, IMAGE_FLAGS), PageRange(0x403, 1, IMAGE_FLAGS)]

  function TwoPageFile(): Bytes {
    EncodeEhdr(TWO_EHDR) + EncodePhdr(TWO_PHDRS[0]) + EncodePhdr(TWO_PHDRS[1])
  }

  lemma FileIsWritten()
    ensures |TwoPageFile()| == 176 && WrittenImage(TwoPageFile(), TWO_EHDR, TWO_PHDRS)
  {
    hide EncodeEhdr, EncodePhdr;
    Sizes(TWO_EHDR, TWO_PHDRS[0]);
    Sizes(TWO_EHDR, TWO_PHDRS[1]);
    var f, e, p, q := TwoPageFile(), EncodeEhdr(TWO_EHDR), EncodePhdr(TWO_PHDRS[0]), EncodePhdr(TWO_PHDRS[1]);
    assert f[..64] == e && f[64..120] == p && f[120..176] == q;
    assert HeaderWritten(f, TWO_EHDR, 0, TWO_PHDRS[0]) && HeaderWritten(f, TWO_EHDR, 1, TWO_PHDRS[1]);
  }

  lemma Sizes(e: Ehdr, p: RawPhdr)
    ensures |e.ident| == 16 ==> |EncodeEhdr(e)| == 64
    ensures |EncodePhdr(p)| == 56
  {
    hide LeBytes;
  }

  /** The file can be loaded into a memory that has its stack page, with frames for its two pages. */
  lemma FileLoads(m: Mem)
    requires LoadRanges(m, TWO_PAGES).1 == Mapped
    ensures LoadOk(m, TwoPageFile(), 0)
  {
    hide WrittenImage, TwoPageFile, LoadFits, LoadRanges, LoadOk, PagesOf;
    FileIsWritten();
    LoadsExactly(m, TwoPageFile(), TWO_EHDR, TWO_PHDRS, 0);
    LoadRangesExactly(m, TWO_PAGES);
    RangesAre();
    FirstPages();
    forall va: nat | 0x400000 <= va < 0x400000 + 176 ensures PageOf(va) == 0x400 {
    }
    assert RawHeaderOk(TWO_EHDR, TWO_PHDRS, 0, 0) && RawHeaderOk(TWO_EHDR, TWO_PHDRS, 0, 1);
    assert RawFileOk(m, TwoPageFile(), TWO_PHDRS, 0, 0) && RawFileOk(m, TwoPageFile(), TWO_PHDRS, 0, 1);
    assert IsSegment(TWO_PHDRS[0]);
  }

  lemma RangesAre()
    ensures RawRanges(TWO_PHDRS, 0, 1) == TWO_PAGES[..1] && RawRanges(TWO_PHDRS, 0, 2) == TWO_PAGES
  {
    assert RawRanges(TWO_PHDRS, 0, 0) == [];
  }

  lemma FirstPages()
    ensures 0x400 in PagesOf(TWO_PAGES[..1])
  {
    assert TWO_PAGES[..1][0] == TWO_PAGES[0];
  }

  /** Memory after booting the file. */
  ghost function TwoPageMemory(regions: seq<MemoryRegion>): Mem {
    WithImage(WithHeap(Untouched(regions)).0, TWO_PAGES, true).0
  }

  /** With 74 usable frames the kernel boots this file, and a fork from 0x400800 then succeeds: the copy lies at
      0x402000, and the child's pointer is 0x401800, on the parent's own stack page. */
  lemma MisplacedCopy(regions: seq<MemoryRegion>)
    requires |BootFree(regions)| >= 74
    ensures LoadOk(WithStack(WithHeap(Untouched(regions)).0).0, TwoPageFile(), 0)
    ensures SegmentRanges(TwoPageFile(), 0, Phnum(TwoPageFile())) == TWO_PAGES
    ensures CanPrepare(TwoPageMemory(regions), 0x400800)
    ensures CopyTo(0x400800) == 0x402000 && ChildRsp(0x400800) == 0x401800
  {
    hide LoadRanges, BootFree, CanPrepare, WithChildPage, LoadOk, TwoPageFile, WithHeap, WithStack, SegmentRanges,
         Phnum;
    TwoPagesFit(regions);
    FileLoads(WithStack(WithHeap(Untouched(regions)).0).0);
    PrepareExactly(TwoPageMemory(regions), 0x400800);
    FileRanges();
  }

  lemma FileRanges()
    ensures |TwoPageFile()| >= 64 && SegmentRanges(TwoPageFile(), 0, Phnum(TwoPageFile())) == TWO_PAGES
  {
    hide WrittenImage, TwoPageFile, SegmentRanges, Phnum, CheckHeader, Phoff, Entry;
    FileIsWritten();
    RangesAre();
    HeaderCount();
    RangesAsWritten(TwoPageFile(), TWO_EHDR, TWO_PHDRS, 0, 2);
  }

  lemma HeaderCount()
    ensures |TwoPageFile()| >= 64 && Phnum(TwoPageFile()) == 2
  {
    hide TwoPageFile, EncodeEhdr, EncodePhdr, CheckHeader, Entry, Phoff, Phnum;
    FileIsWritten();
    EhdrReadBack(TwoPageFile(), TWO_EHDR);
  }

  lemma TwoPagesFit(regions: seq<MemoryRegion>)
    requires |BootFree(regions)| >= 74
    ensures var (m1, r) := LoadRanges(WithStack(WithHeap(Untouched(regions)).0).0, TWO_PAGES);
            && r == Mapped && 0x400 in m1.pt && 0x401 in m1.pt && 0x403 in m1.pt && WithChildPage(m1).1 == Mapped
  {
    hide MapRange, LoadRanges, BootFree, AllocAndMap, Path, WithChildPage;
    var m := Untouched(regions);
    HeapTakes(m);
    MapRangePages(m, HEAP_PAGE, HEAP_PAGES, HEAP_FLAGS, false);
    StackTakes(WithHeap(m).0);
    TwoPagesLoad(WithStack(WithHeap(m).0).0);
  }

  /** Both pages and the child's lie in the region of the stack page, whose tables are there. */
  lemma TwoPagesLoad(m: Mem)
    requires Path(0x401) <= m.tables.Keys && 0x401 in m.pt && 0x400 !in m.pt && 0x402 !in m.pt && 0x403 !in m.pt
    requires |m.free| >= 3
    ensures var (m1, r) := LoadRanges(m, TWO_PAGES);
            && r == Mapped && 0x400 in m1.pt && 0x401 in m1.pt && 0x403 in m1.pt && WithChildPage(m1).1 == Mapped
  {
    hide AllocAndMap, Path;
    var flags := IMAGE_FLAGS;
    OneMore(m, 0x400, flags);
    var m1 := AllocAndMap(m, 0x400, flags).0;
    OneMore(m1, 0x403, flags);
    var m2 := AllocAndMap(m1, 0x403, flags).0;
    OneMore(m2, 0x402, HEAP_FLAGS);
    assert TWO_PAGES[1..] == [PageRange(0x403, 1, flags)] && TWO_PAGES[1..][1..] == [];
    OnePageRange(m, 0x400, flags);
    OnePageRange(m1, 0x403, flags);
    LoadRangesStep(m, TWO_PAGES);
    LoadRangesStep(m1, TWO_PAGES[1..]);
    LoadRangesStep(m2, TWO_PAGES[1..][1..]);
  }

  lemma OnePageRange(m: Mem, page: nat, flags: Flags)
    ensures AllocAndMap(m, page, flags).1 == Mapped ==>
              MapRange(m, page, 1, flags, false) == AllocAndMap(m, page, flags)
  {
    hide AllocAndMap;
  }

  lemma OneMore(m: Mem, page: nat, flags: Flags)
    requires Path(0x401) <= m.tables.Keys && page / 512 == 0x401 / 512 && page !in m.pt && m.free != {}
    ensures var (m1, r) := AllocAndMap(m, page, flags);
            && r == Mapped && m1.pt.Keys == m.pt.Keys + {page} && |m1.free| == |m.free| - 1
            && m1.tables.Keys == m.tables.Keys
  {
    hide AllocAndMap, Path;
    NeighbourTables(0x401, page);
    AllocAndMapExactly(m, page, flags);
    AllocAndMapPages(m, page, flags);
    assert Absent(m, page) == {};
  }
}
