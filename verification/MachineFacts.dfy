/** The machine's numbers written out: which frames boot hands to the allocator, which pages share page tables, where a
    byte lies in physical memory, and what the first program finds mapped. */
module MachineFacts {
  import opened Basics
  import opened FrameBitmap
  import opened Paging
  import opened PageRanges
  import opened UserMemory
  import opened AddressSpace
  import opened Boot

  /** After boot a frame is free exactly when it lies below 256 MiB in a usable region and is neither page zero nor in
      the video window at 0xA0000. */
  lemma BootFreeExactly(regions: seq<MemoryRegion>, f: nat)
    ensures f in BootFree(regions) <==>
            && 4096 * f < 0x1000_0000 && f != 0 && !(0xA0000 <= 4096 * f < 0xC0000)
            && exists r :: r in regions && r.usable && r.start <= f < r.end
  {
  }

  /** Two addresses share a page table of level 1, 2 or 3 exactly when they share 2 MiB, 1 GiB or 512 GiB. */
  lemma TablesByRegion(va: nat, vb: nat)
    ensures TableFor(va / 4096, 1) == TableFor(vb / 4096, 1) <==> va / 0x20_0000 == vb / 0x20_0000
    ensures TableFor(va / 4096, 2) == TableFor(vb / 4096, 2) <==> va / 0x4000_0000 == vb / 0x4000_0000
    ensures TableFor(va / 4096, 3) == TableFor(vb / 4096, 3) <==> va / 0x80_0000_0000 == vb / 0x80_0000_0000
  {
    assert va / 4096 / 512 == va / 0x20_0000 && vb / 4096 / 512 == vb / 0x20_0000;
    assert va / 4096 / 0x40000 == va / 0x4000_0000 && vb / 4096 / 0x40000 == vb / 0x4000_0000;
    assert va / 4096 / 0x8000000 == va / 0x80_0000_0000 && vb / 4096 / 0x8000000 == vb / 0x80_0000_0000;
  }

  /** The first page of an address space takes four frames, one for itself and one for each table above it; the next
      page of the same 2 MiB takes one. */
  lemma FramesForPage(m: Mem, page: nat, other: nat, flags: Flags)
    requires m.tables == map[] && page !in m.pt && other !in m.pt && other != page && other / 512 == page / 512
    ensures AllocAndMap(m, page, flags).1 == Mapped <==> |m.free| >= 4
    ensures |m.free| >= 4 ==>
              var m1 := AllocAndMap(m, page, flags).0;
              && |m1.free| == |m.free| - 4
              && (AllocAndMap(m1, other, flags).1 == Mapped <==> |m.free| >= 5)
              && (|m.free| >= 5 ==> |AllocAndMap(m1, other, flags).0.free| == |m.free| - 5)
  {
    hide AllocAndMap;
    AllocAndMapExactly(m, page, flags);
    ThreeTables(m, page);
    AllocAndMapPages(m, page, flags);
    var m1 := AllocAndMap(m, page, flags).0;
    AllocAndMapExactly(m1, other, flags);
    NeighbourTables(page, other);
    if |m.free| >= 4 {
      assert Absent(m1, other) == {};
    }
  }

  lemma ThreeTables(m: Mem, page: nat)
    requires m.tables == map[]
    ensures |Absent(m, page)| == 3
  {
    assert Levels(page, 1) == {TableFor(page, 1)};
    assert Levels(page, 2) == {TableFor(page, 1), TableFor(page, 2)};
    assert Absent(m, page) == {TableFor(page, 1), TableFor(page, 2), TableFor(page, 3)};
  }

  /** A byte of user memory lies at its frame's base plus its offset in the page. */
  lemma ByteLiesAt(pt: map<nat, Pte>, ram: map<nat, byte>, va: nat, b: byte)
    ensures ReadVirt(pt, ram, va) == Some(b) <==>
            va / 4096 in pt && 4096 * pt[va / 4096].frame + va % 4096 in ram
            && ram[4096 * pt[va / 4096].frame + va % 4096] == b
  {
  }

  /** At boot the stack page 0x401000 is writable and not executable; the built-in program's page 0x400000 is executable
      and not writable. */
  lemma BootPages(m: Mem)
    ensures var (m', r) := WithStack(m);
            r == Mapped ==> 0x401 in m'.pt && m'.pt[0x401].flags.writable && m'.pt[0x401].flags.noExecute
                            && m'.pt.Keys == m.pt.Keys + {0x401}
    ensures var (m', r) := WithText(m);
            r == Mapped ==> 0x400 in m'.pt && !m'.pt[0x400].flags.writable && !m'.pt[0x400].flags.noExecute
                            && m'.pt.Keys == m.pt.Keys + {0x400}
  {
    hide AllocAndMap;
    AllocAndMapPages(m, 0x401, HEAP_FLAGS);
    AllocAndMapPages(m, 0x400, TEXT_FLAGS);
  }
}
