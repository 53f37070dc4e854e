/**
 The calls that edit user memory (src/process.rs, src/elf.rs) as steps on the frame ownership state plus the
 bookkeeping of one process: `brk_end`, the mmap areas and the mmap bump pointer. The theorems about runs here are those
 of a single process, including calls that stop halfway and undo nothing; `SharedMemory` puts the processes together.
 */
module UserMemory {
  import opened Basics
  import opened Paging
  import opened PageRanges

  const USER_TEXT_BASE: nat := 0x400000
  const USER_STACK_TOP: nat := 0x402000
  const CHILD_STACK_LO: nat := 0x402000
  const USER_BRK_BASE: nat := 0x404000
  const USER_BRK_LIMIT: nat := 0x410000
  const USER_MMAP_BASE: nat := 0x410000
  const USER_MMAP_LIMIT: nat := 0x480000

  /** The first address above the lower half of the canonical addresses. */
  const LOWER_HALF: nat := 0x8000_0000_0000

  /** Heap and stack pages: writable, never executable. */
  const HEAP_FLAGS: Flags := Flags(true, true)

  datatype VmArea = VmArea(id: nat, start: nat, pages: nat, writable: bool, executable: bool) {
    function End(): nat {
      start + pages * PAGE
    }

    function PageFlags(): Flags {
      Flags(writable, !executable)
    }
  }

  datatype User = User(mem: Mem, brkEnd: nat, areas: seq<VmArea>, nextMmap: nat, nextId: nat)

  datatype Call =
    | Brk(addr: u64)
    | Mmap(addr: u64, len: u64, prot: u64)
    | Munmap(addr: u64, len: u64)
    | LoadImage(ranges: seq<PageRange>)  // the page ranges of the PT_LOAD segments, in order
    | UnmapImage(imageEnd: u64)          // exec drops the old image
    | MapChildStack                      // fork maps the child's stack page

  /** The new state, the returned u64 (zero where the source returns none), and how the page loop ended. */
  datatype Outcome = Outcome(user: User, ret: nat, mapping: MapResult)

  // ----- the calls -----

  ghost function Shrink(m: Mem, newEnd: nat, oldEnd: nat): Mem {
    var lo := AlignUp(newEnd, PAGE);
    if newEnd >= oldEnd || newEnd < USER_BRK_BASE || lo >= oldEnd then m
    else UnmapRange(m, PageOf(lo), PageOf(oldEnd - 1) - PageOf(lo) + 1)
  }

  ghost function Grow(m: Mem, oldEnd: nat, newEnd: nat): (Mem, MapResult)
    requires oldEnd < newEnd
  {
    MapRange(m, PageOf(oldEnd), PageOf(newEnd - 1) - PageOf(oldEnd) + 1, HEAP_FLAGS, true)
  }

  ghost function BrkSpec(u: User, addr: u64): Outcome {
    if addr == 0 then Outcome(u, u.brkEnd, Mapped)
    else if addr < USER_BRK_BASE || addr > USER_BRK_LIMIT then Outcome(u, ENOMEM, Mapped)
    else if addr < u.brkEnd then Outcome(u.(mem := Shrink(u.mem, addr, u.brkEnd), brkEnd := addr), addr, Mapped)
    else if addr == u.brkEnd then Outcome(u, addr, Mapped)
    else
      var (m, r) := Grow(u.mem, u.brkEnd, addr);
      if r == Mapped then Outcome(u.(mem := m, brkEnd := addr), addr, r)
      else Outcome(u.(mem := m), ENOMEM, r)
  }

  predicate ProtWrite(prot: u64) { prot / 2 % 2 == 1 }

  predicate ProtExec(prot: u64) { prot / 4 % 2 == 1 }

  function PagesFor(len: nat): nat {
    (len + PAGE - 1) / PAGE
  }

  ghost function MapArea(u: User, addr: nat, n: nat, prot: u64): Outcome {
    var (m, r) := MapRange(u.mem, PageOf(addr), n, Flags(ProtWrite(prot), !ProtExec(prot)), false);
    if r != Mapped then Outcome(u.(mem := m), ENOMEM, r)
    else
      var area := VmArea(u.nextId, addr, n, ProtWrite(prot), ProtExec(prot));
      Outcome(u.(mem := m, areas := u.areas + [area], nextId := u.nextId + 1), addr, Mapped)
  }

  ghost function MmapSpec(u: User, addr: u64, len: u64, prot: u64): Outcome {
    var n := PagesFor(len);
    if len == 0 || len > USER_MMAP_LIMIT - USER_MMAP_BASE then Outcome(u, EINVAL, Mapped)
    else if addr == 0 then
      var u1 := u.(nextMmap := u.nextMmap + n * PAGE);
      if u.nextMmap + n * PAGE > USER_MMAP_LIMIT then Outcome(u1, ENOMEM, Mapped)
      else MapArea(u1, u.nextMmap, n, prot)
    else if addr % PAGE != 0 || addr < USER_MMAP_BASE || addr + len > USER_MMAP_LIMIT then Outcome(u, EINVAL, Mapped)
    else MapArea(u, addr, n, prot)
  }

  predicate Matches(a: VmArea, addr: nat, end: nat) {
    a.start == addr && a.End() == end
  }

  /** `retain`: drop every area that matches the range exactly. */
  function Retain(areas: seq<VmArea>, addr: nat, end: nat): seq<VmArea> {
    if areas == [] then []
    else (if Matches(areas[0], addr, end) then [] else [areas[0]]) + Retain(areas[1..], addr, end)
  }

  /** The end of a range of u64 addresses, capped at the largest of them. */
  function SaturatingEnd(addr: u64, len: u64): u64 {
    if addr + len < 0x1_0000_0000_0000_0000 then addr + len else 0xFFFF_FFFF_FFFF_FFFF
  }

  ghost function MunmapSpec(u: User, addr: u64, len: u64): Outcome {
    var end := SaturatingEnd(addr, len);
    if addr % PAGE != 0 || len == 0 then Outcome(u, EINVAL, Mapped)
    else if !exists a :: a in u.areas && Matches(a, addr, end) then Outcome(u, EINVAL, Mapped)
    else Outcome(u.(areas := Retain(u.areas, addr, end),
                    mem := UnmapRange(u.mem, PageOf(addr), len / PAGE)), 0, Mapped)
  }

  function ImagePages(imageEnd: nat): nat {
    if imageEnd <= USER_TEXT_BASE then 0 else PagesFor(imageEnd - USER_TEXT_BASE)
  }

  ghost function Do(u: User, call: Call): Outcome {
    match call
    case Brk(addr) => BrkSpec(u, addr)
    case Mmap(addr, len, prot) => MmapSpec(u, addr, len, prot)
    case Munmap(addr, len) => MunmapSpec(u, addr, len)
    case LoadImage(ranges) =>
      var (m, r) := LoadRanges(u.mem, ranges);
      Outcome(u.(mem := m), 0, r)
    case UnmapImage(hi) => Outcome(u.(mem := UnmapRange(u.mem, PageOf(USER_TEXT_BASE), ImagePages(hi))), 0, Mapped)
    case MapChildStack =>
      var (m, r) := MapRange(u.mem, PageOf(CHILD_STACK_LO), 1, HEAP_FLAGS, true);
      Outcome(u.(mem := m), 0, r)
  }

  ghost function Run(u: User, calls: seq<Call>): User
    decreases |calls|
  {
    if calls == [] then u else Run(Do(u, calls[0]).user, calls[1..])
  }

  // ----- frame ownership and conservation, call by call -----

  /** Unmapping leaves the lost frames alone. */
  lemma UnmapKeeps(m: Mem, first: nat, n: nat)
    requires Owned(m)
    ensures Balanced(m, UnmapRange(m, first, n)) && UnmapRange(m, first, n).lost == m.lost
  {
    hide Owned, Universe, UnmapRange;
    UnmapRangeKeeps(m, first, n);
    UnmapRangePages(m, first, n);
  }

  lemma CallKeeps(u: User, call: Call)
    requires Owned(u.mem)
    ensures var o := Do(u, call);
            && Balanced(u.mem, o.user.mem)
            && |o.user.mem.lost| == |u.mem.lost| + (if o.mapping == MapFailed then 1 else 0)
  {
    hide Owned, Universe, MapRange, UnmapRange, LoadRanges;
    match call
    case Brk(addr) =>
      var lo := AlignUp(addr, PAGE);
      if USER_BRK_BASE <= addr < u.brkEnd && lo < u.brkEnd {
        UnmapKeeps(u.mem, PageOf(lo), PageOf(u.brkEnd - 1) - PageOf(lo) + 1);
      }
      if u.brkEnd < addr {
        MapRangeKeeps(u.mem, PageOf(u.brkEnd), PageOf(addr - 1) - PageOf(u.brkEnd) + 1, HEAP_FLAGS, true);
      }
    case Mmap(addr, len, prot) =>
      var base := if addr == 0 then u.nextMmap else addr;
      MapRangeKeeps(u.mem, PageOf(base), PagesFor(len), Flags(ProtWrite(prot), !ProtExec(prot)), false);
    case Munmap(addr, len) => UnmapKeeps(u.mem, PageOf(addr), len / PAGE);
    case LoadImage(ranges) => LoadRangesKeeps(u.mem, ranges);
    case UnmapImage(hi) => UnmapKeeps(u.mem, PageOf(USER_TEXT_BASE), ImagePages(hi));
    case MapChildStack => MapRangeKeeps(u.mem, PageOf(CHILD_STACK_LO), 1, HEAP_FLAGS, true);
  }

  /** Every call keeps the tables of all mapped pages. */
  lemma CallRooted(u: User, call: Call)
    requires Rooted(u.mem)
    ensures Rooted(Do(u, call).user.mem)
  {
    hide Rooted, MapRange, UnmapRange, LoadRanges;
    match call
    case Brk(addr) =>
      var lo := AlignUp(addr, PAGE);
      if USER_BRK_BASE <= addr < u.brkEnd && lo < u.brkEnd {
        UnmapRangeRooted(u.mem, PageOf(lo), PageOf(u.brkEnd - 1) - PageOf(lo) + 1);
      }
      if u.brkEnd < addr {
        MapRangeRooted(u.mem, PageOf(u.brkEnd), PageOf(addr - 1) - PageOf(u.brkEnd) + 1, HEAP_FLAGS, true);
      }
    case Mmap(addr, len, prot) =>
      var base := if addr == 0 then u.nextMmap else addr;
      MapRangeRooted(u.mem, PageOf(base), PagesFor(len), Flags(ProtWrite(prot), !ProtExec(prot)), false);
    case Munmap(addr, len) => UnmapRangeRooted(u.mem, PageOf(addr), len / PAGE);
    case LoadImage(ranges) => LoadRangesRooted(u.mem, ranges);
    case UnmapImage(hi) => UnmapRangeRooted(u.mem, PageOf(USER_TEXT_BASE), ImagePages(hi));
    case MapChildStack => MapRangeRooted(u.mem, PageOf(CHILD_STACK_LO), 1, HEAP_FLAGS, true);
  }

  // ----- the process's own bookkeeping -----

  /** Every page that meets [USER_BRK_BASE, brk_end) is mapped, and every page mapped in the brk window, also
      one left behind by a failed grow, carries the heap flags. */
  ghost predicate HeapMapped(m: Mem, brkEnd: nat) {
    && (forall p: nat | PageOf(USER_BRK_BASE) <= p && p * PAGE < brkEnd :: p in m.pt)
    && (forall p: nat | PageOf(USER_BRK_BASE) <= p < PageOf(USER_BRK_LIMIT) && p in m.pt :: m.pt[p].flags == HEAP_FLAGS)
  }

  predicate BrkInWindow(u: User) {
    USER_BRK_BASE <= u.brkEnd <= USER_BRK_LIMIT
  }

  /** No page of the brk window is mapped beyond brk_end. */
  ghost predicate HeapExact(m: Mem, brkEnd: nat) {
    forall p: nat | PageOf(USER_BRK_BASE) <= p < PageOf(USER_BRK_LIMIT) && brkEnd <= p * PAGE :: p !in m.pt
  }

  predicate InMmapWindow(p: nat) {
    PageOf(USER_MMAP_BASE) <= p < PageOf(USER_MMAP_LIMIT)
  }

  ghost predicate Covered(areas: seq<VmArea>, p: nat) {
    exists a :: a in areas && InRange(p, PageOf(a.start), a.pages)
  }

  /** Every page mapped in the mmap window belongs to an area, so some munmap can release it. */
  ghost predicate WindowExact(u: User) {
    forall p: nat | InMmapWindow(p) && p in u.mem.pt :: Covered(u.areas, p)
  }

  predicate AreaInWindow(a: VmArea) {
    a.start % PAGE == 0 && a.pages > 0 && USER_MMAP_BASE <= a.start && a.End() <= USER_MMAP_LIMIT
  }

  ghost predicate AreaMapped(m: Mem, a: VmArea) {
    forall p | InRange(p, PageOf(a.start), a.pages) :: p in m.pt && m.pt[p].flags == a.PageFlags()
  }

  predicate Disjoint(a: VmArea, b: VmArea) {
    a.End() <= b.start || b.End() <= a.start
  }

  ghost predicate AreasWellFormed(u: User) {
    && u.nextMmap % PAGE == 0 && USER_MMAP_BASE <= u.nextMmap
    && (forall a | a in u.areas :: AreaInWindow(a) && AreaMapped(u.mem, a))
    && (forall i, j | 0 <= i < j < |u.areas| :: Disjoint(u.areas[i], u.areas[j]))
  }

  ghost predicate UserInv(u: User) {
    Owned(u.mem) && BrkInWindow(u) && HeapMapped(u.mem, u.brkEnd) && AreasWellFormed(u)
  }

  predicate InBrkWindow(p: nat) {
    PageOf(USER_BRK_BASE) <= p < PageOf(USER_BRK_LIMIT)
  }

  /** What the invariant needs of exec: the image pages that the load gets to map in the brk window look like heap
      pages, and the old image reaches neither a heap page in use nor an area. Every other call is free. */
  ghost predicate SparesHeap(u: User, call: Call) {
    match call
    case LoadImage(ranges) =>
      forall i: nat, p: nat | Reaches(u.mem, ranges, i, p) && InBrkWindow(p) :: ranges[i].flags == HEAP_FLAGS
    case UnmapImage(hi) =>
      (hi <= USER_BRK_BASE || u.brkEnd == USER_BRK_BASE) && forall a | a in u.areas :: hi <= a.start
    case _ => true
  }

  /** It is enough that no range of the image meets the brk window. */
  lemma AvoidingSpares(u: User, ranges: seq<PageRange>)
    requires forall r | r in ranges :: Avoids(r, PageOf(USER_BRK_BASE), PageOf(USER_BRK_LIMIT))
    ensures SparesHeap(u, LoadImage(ranges))
  {
    hide LoadFits;
    forall i: nat, p: nat | Reaches(u.mem, ranges, i, p) ensures !InBrkWindow(p) {
      assert ranges[i] in ranges;
    }
  }

  ghost predicate Sparing(u: User, calls: seq<Call>)
    decreases |calls|
  {
    calls != [] ==> SparesHeap(u, calls[0]) && Sparing(Do(u, calls[0]).user, calls[1..])
  }

  /** What both invariants need of an edit: it leaves the pages from `lo` up alone. */
  ghost predicate SameFrom(m: Mem, m': Mem, lo: nat) {
    forall p | lo <= p :: (p in m'.pt <==> p in m.pt) && (p in m.pt ==> m'.pt[p] == m.pt[p])
  }

  /** What dropping the old image does to the page table. */
  lemma DropPages(u: User, imageEnd: u64)
    requires Owned(u.mem)
    ensures var u' := Do(u, UnmapImage(imageEnd)).user;
            && u' == u.(mem := u'.mem)
            && u'.mem.pt
               == map p | p in u.mem.pt && !(PageOf(USER_TEXT_BASE) <= p && p * PAGE < imageEnd) :: u.mem.pt[p]
  {
    hide Owned, UnmapRange;
    UnmapRangePages(u.mem, PageOf(USER_TEXT_BASE), ImagePages(imageEnd));
    assert forall p: nat :: InRange(p, PageOf(USER_TEXT_BASE), ImagePages(imageEnd)) <==>
                            PageOf(USER_TEXT_BASE) <= p && p * PAGE < imageEnd;
  }

  /** Fork's child stack page lies below the heap. */
  lemma ChildStackPages(u: User)
    ensures var u' := Do(u, MapChildStack).user;
            && u' == u.(mem := u'.mem) && SameFrom(u.mem, u'.mem, PageOf(USER_BRK_BASE))
            && forall p | p in u.mem.pt :: p in u'.mem.pt && u'.mem.pt[p] == u.mem.pt[p]
  {
    hide MapRange;
    MapRangePages(u.mem, PageOf(CHILD_STACK_LO), 1, HEAP_FLAGS, true);
  }

  /** Dropping the old image unmaps every page that meets [USER_TEXT_BASE, image end) and no other, and fork's child
      stack is mapped as stack unless the pool is exhausted. */
  lemma ImageAndStackPages(u: User, imageEnd: u64)
    requires Owned(u.mem)
    ensures var m := Do(u, UnmapImage(imageEnd)).user.mem;
            m.pt == map p | p in u.mem.pt && !(PageOf(USER_TEXT_BASE) <= p && p * PAGE < imageEnd) :: u.mem.pt[p]
    ensures var o := Do(u, MapChildStack);
            if o.mapping == Mapped then PageOf(CHILD_STACK_LO) in o.user.mem.pt else o.user.mem.free == {}
  {
    hide Owned, MapRange, UnmapRange;
    DropPages(u, imageEnd);
    MapRangePages(u.mem, PageOf(CHILD_STACK_LO), 1, HEAP_FLAGS, true);
    assert InRange(PageOf(CHILD_STACK_LO), PageOf(CHILD_STACK_LO), 1);
    if Do(u, MapChildStack).mapping != Mapped {
      MapRangeFailure(u.mem, PageOf(CHILD_STACK_LO), 1, HEAP_FLAGS, true);
    }
  }

  // brk

  lemma PagesOfSpan(lo: nat, hi: nat, p: nat)
    requires lo < hi
    ensures InRange(p, PageOf(lo), PageOf(hi - 1) - PageOf(lo) + 1) <==> PageOf(lo) <= p && p * PAGE < hi
  {
  }

  /** What a brk call does to the page table, in terms of addresses: a successful grow leaves exactly the pages
      meeting [old, new) mapped besides the earlier ones, a failed one a part of them; a shrink removes exactly
      the pages that start in [new, old). */
  ghost predicate BrkEffect(u: User, o: Outcome) {
    var u' := o.user;
    && u' == u.(mem := u'.mem, brkEnd := u'.brkEnd)
    && (u'.brkEnd < u.brkEnd ==>
          forall p: nat :: (p in u'.mem.pt <==> p in u.mem.pt && !(u'.brkEnd <= p * PAGE < u.brkEnd))
                           && (p in u'.mem.pt ==> u'.mem.pt[p] == u.mem.pt[p]))
    && (u.brkEnd <= u'.brkEnd ==>
          && (forall p: nat | p in u.mem.pt :: p in u'.mem.pt && u'.mem.pt[p] == u.mem.pt[p])
          && (forall p: nat | p in u'.mem.pt && p !in u.mem.pt ::
                PageOf(u.brkEnd) <= p < PageOf(USER_BRK_LIMIT) && u'.mem.pt[p].flags == HEAP_FLAGS
                && (o.mapping == Mapped ==> p * PAGE < u'.brkEnd))
          && (forall p: nat | PageOf(u.brkEnd) <= p && p * PAGE < u'.brkEnd && u.brkEnd < u'.brkEnd :: p in u'.mem.pt))
  }

  lemma BrkPages(u: User, addr: u64)
    requires Owned(u.mem) && BrkInWindow(u)
    ensures BrkEffect(u, BrkSpec(u, addr)) && BrkInWindow(BrkSpec(u, addr).user)
  {
    hide Owned, MapRange, UnmapRange, RangeMapped;
    if USER_BRK_BASE <= addr < u.brkEnd {
      ShrinkPages(u.mem, addr, u.brkEnd);
    } else if u.brkEnd < addr <= USER_BRK_LIMIT {
      GrowPages(u.mem, u.brkEnd, addr);
    }
  }

  lemma ShrinkPages(m: Mem, newEnd: nat, oldEnd: nat)
    requires Owned(m) && USER_BRK_BASE <= newEnd < oldEnd
    ensures var m' := Shrink(m, newEnd, oldEnd);
            && m'.pt == (map p | p in m.pt && !(newEnd <= p * PAGE < oldEnd) :: m.pt[p])
            && m'.tables == m.tables && m'.lost == m.lost
            && m'.free == m.free + (set p | p in m.pt && newEnd <= p * PAGE < oldEnd :: m.pt[p].frame)
  {
    hide Owned, UnmapRange;
    var lo := AlignUp(newEnd, PAGE);
    if lo < oldEnd {
      var n := PageOf(oldEnd - 1) - PageOf(lo) + 1;
      UnmapRangePages(m, PageOf(lo), n);
      forall p: nat ensures InRange(p, PageOf(lo), n) <==> newEnd <= p * PAGE < oldEnd {
        PagesOfSpan(lo, oldEnd, p);
      }
    } else {
      assert forall p: nat :: !(newEnd <= p * PAGE < oldEnd);
      assert m.pt == (map p | p in m.pt && !(newEnd <= p * PAGE < oldEnd) :: m.pt[p]);
    }
  }

  lemma GrowPages(m: Mem, oldEnd: nat, newEnd: nat)
    requires USER_BRK_BASE <= oldEnd < newEnd <= USER_BRK_LIMIT
    ensures var (m', r) := Grow(m, oldEnd, newEnd);
            && (forall p | p in m.pt :: p in m'.pt && m'.pt[p] == m.pt[p])
            && (forall p | p in m'.pt && p !in m.pt ::
                  PageOf(oldEnd) <= p && p * PAGE < newEnd && m'.pt[p].flags == HEAP_FLAGS && m'.pt[p].frame in m.free)
            && (r == Mapped ==> forall p: nat | PageOf(oldEnd) <= p && p * PAGE < newEnd :: p in m'.pt)
            && m'.free <= m.free && (r != MapFailed ==> m'.lost == m.lost) && TablesKept(m, m')
  {
    hide MapRange;
    var n := PageOf(newEnd - 1) - PageOf(oldEnd) + 1;
    MapRangePages(m, PageOf(oldEnd), n, HEAP_FLAGS, true);
    var m' := Grow(m, oldEnd, newEnd).0;
    forall p | p in m'.pt && p !in m.pt ensures PageOf(oldEnd) <= p && p * PAGE < newEnd {
      assert InRange(p, PageOf(oldEnd), n);
      PagesOfSpan(oldEnd, newEnd, p);
    }
    forall p: nat | PageOf(oldEnd) <= p && p * PAGE < newEnd ensures InRange(p, PageOf(oldEnd), n) {
      PagesOfSpan(oldEnd, newEnd, p);
    }
  }

  /** What brk returns: the old end for zero, the new end on success, ENOMEM with the end unchanged outside the
      window and when a grow finds the pool exhausted, and in no other case. */
  lemma BrkResult(u: User, addr: u64)
    requires BrkInWindow(u)
    ensures var o := BrkSpec(u, addr);
            if addr == 0 then o.ret == u.brkEnd && o.user == u
            else if !(USER_BRK_BASE <= addr <= USER_BRK_LIMIT) then o.ret == ENOMEM && o.user == u
            else if o.mapping == Mapped then o.ret == addr == o.user.brkEnd
            else o.ret == ENOMEM && o.user == u.(mem := o.user.mem) && o.user.mem.free == {} && u.brkEnd < addr
  {
    hide MapRange, Shrink;
    if u.brkEnd < addr <= USER_BRK_LIMIT && BrkSpec(u, addr).mapping != Mapped {
      MapRangeFailure(u.mem, PageOf(u.brkEnd), PageOf(addr - 1) - PageOf(u.brkEnd) + 1, HEAP_FLAGS, true);
    }
  }

  lemma HeapAfterBrk(u: User, o: Outcome)
    requires HeapMapped(u.mem, u.brkEnd) && BrkEffect(u, o) && BrkInWindow(u) && BrkInWindow(o.user)
    ensures o.user.areas == u.areas && o.user.nextMmap == u.nextMmap
    ensures HeapMapped(o.user.mem, o.user.brkEnd) && SameFrom(u.mem, o.user.mem, PageOf(USER_MMAP_BASE))
    ensures HeapExact(u.mem, u.brkEnd) && o.mapping == Mapped ==> HeapExact(o.user.mem, o.user.brkEnd)
  {
    var u' := o.user;
    forall p: nat | PageOf(USER_BRK_BASE) <= p && p * PAGE < u'.brkEnd ensures p in u'.mem.pt {
      assert p * PAGE < u.brkEnd || PageOf(u.brkEnd) <= p;
    }
  }

  /** A brk call, successful or not, keeps every heap page mapped and stays out of the mmap window. */
  lemma BrkKeepsInv(u: User, addr: u64)
    requires UserInv(u)
    ensures UserInv(BrkSpec(u, addr).user)
  {
    hide Owned, Universe, BrkSpec, HeapMapped, BrkEffect, SameFrom, AreaMapped;
    CallKeeps(u, Brk(addr));
    BrkPages(u, addr);
    HeapAfterBrk(u, BrkSpec(u, addr));
    AreasKept(u, BrkSpec(u, addr).user.mem);
  }

  /** Areas stay well formed when the mmap window does not change. */
  lemma AreasKept(u: User, m': Mem)
    requires AreasWellFormed(u) && SameFrom(u.mem, m', PageOf(USER_MMAP_BASE))
    ensures forall a | a in u.areas :: AreaMapped(m', a)
  {
    forall a, p | a in u.areas && InRange(p, PageOf(a.start), a.pages)
      ensures p in m'.pt && m'.pt[p].flags == a.PageFlags()
    {
      assert AreaInWindow(a) && AreaMapped(u.mem, a);
    }
  }

  // mmap

  lemma MapAreaKeepsInv(u: User, addr: nat, n: nat, prot: u64)
    requires UserInv(u) && addr % PAGE == 0 && n > 0
    requires USER_MMAP_BASE <= addr && addr + n * PAGE <= USER_MMAP_LIMIT
    ensures var u' := MapArea(u, addr, n, prot).user;
            u'.brkEnd == u.brkEnd && HeapMapped(u'.mem, u.brkEnd) && AreasWellFormed(u')
  {
    hide Owned, MapRange;
    var flags := Flags(ProtWrite(prot), !ProtExec(prot));
    MapRangePages(u.mem, PageOf(addr), n, flags, false);
    var (m, r) := MapRange(u.mem, PageOf(addr), n, flags, false);
    assert forall a | a in u.areas :: AreaMapped(m, a);
    if r == Mapped {
      var area := VmArea(u.nextId, addr, n, ProtWrite(prot), ProtExec(prot));
      assert AreaMapped(m, area);
      forall a | a in u.areas ensures Disjoint(a, area) {
        NewAreaDisjoint(u.mem, a, area);
      }
    }
  }

  /** An area whose pages are all mapped cannot overlap one whose pages were all unmapped. */
  lemma NewAreaDisjoint(m: Mem, a: VmArea, b: VmArea)
    requires AreaInWindow(a) && AreaMapped(m, a) && AreaInWindow(b)
    requires forall p | InRange(p, PageOf(b.start), b.pages) :: p !in m.pt
    ensures Disjoint(a, b)
  {
    if !Disjoint(a, b) {
      var p := if a.start < b.start then PageOf(b.start) else PageOf(a.start);
      assert InRange(p, PageOf(a.start), a.pages) && InRange(p, PageOf(b.start), b.pages);
    }
  }

  lemma MmapKeepsInv(u: User, addr: u64, len: u64, prot: u64)
    requires UserInv(u)
    ensures UserInv(MmapSpec(u, addr, len, prot).user)
  {
    hide Owned, Universe, MapArea, HeapMapped, AreaMapped;
    CallKeeps(u, Mmap(addr, len, prot));
    var n := PagesFor(len);
    if 0 < len <= USER_MMAP_LIMIT - USER_MMAP_BASE {
      assert n > 0 && n * PAGE < len + PAGE;
      if addr == 0 {
        var u1 := u.(nextMmap := u.nextMmap + n * PAGE);
        assert UserInv(u1);
        if u.nextMmap + n * PAGE <= USER_MMAP_LIMIT {
          MapAreaKeepsInv(u1, u.nextMmap, n, prot);
        }
      } else if addr % PAGE == 0 && USER_MMAP_BASE <= addr && addr + len <= USER_MMAP_LIMIT {
        assert addr + n * PAGE <= USER_MMAP_LIMIT;
        MapAreaKeepsInv(u, addr, n, prot);
      }
    }
  }

  /** The range an mmap call asks for, if its arguments are acceptable. */
  function MmapTarget(u: User, addr: u64, len: u64): Option<nat> {
    if len == 0 || len > USER_MMAP_LIMIT - USER_MMAP_BASE then None
    else if addr == 0 then
      (if u.nextMmap + PagesFor(len) * PAGE <= USER_MMAP_LIMIT then Some(u.nextMmap) else None)
    else if addr % PAGE == 0 && USER_MMAP_BASE <= addr && addr + len <= USER_MMAP_LIMIT then Some(addr) else None
  }

  /** An mmap with an acceptable target fails only when the pool is exhausted or a page of the range is taken; when
      it succeeds the range was free, is now mapped with the requested protection, and is recorded as the last
      area, covering [ret, ret + len) rounded up to pages. */
  lemma MmapResult(u: User, addr: u64, len: u64, prot: u64)
    ensures var o := MmapSpec(u, addr, len, prot);
            var n := PagesFor(len);
            match MmapTarget(u, addr, len)
            case None => o.user == u.(nextMmap := o.user.nextMmap) && (o.ret == EINVAL || o.ret == ENOMEM)
            case Some(base) =>
              if o.mapping == Mapped then
                && o.ret == base
                && o.user.areas == u.areas + [VmArea(u.nextId, base, n, ProtWrite(prot), ProtExec(prot))]
                && len <= n * PAGE < len + PAGE
                && forall p | InRange(p, PageOf(base), n) ::
                     p !in u.mem.pt && p in o.user.mem.pt
                     && o.user.mem.pt[p].flags == Flags(ProtWrite(prot), !ProtExec(prot))
              else
                && o.ret == ENOMEM && o.user.areas == u.areas
                && (o.user.mem.free == {} || exists p :: InRange(p, PageOf(base), n) && p in u.mem.pt)
  {
    hide MapRange;
    var t := MmapTarget(u, addr, len);
    if t.Some? {
      var flags := Flags(ProtWrite(prot), !ProtExec(prot));
      MapRangePages(u.mem, PageOf(t.value), PagesFor(len), flags, false);
      if MmapSpec(u, addr, len, prot).mapping != Mapped {
        MapRangeFailure(u.mem, PageOf(t.value), PagesFor(len), flags, false);
      }
    }
  }

  // munmap

  lemma {:induction false} RetainOne(areas: seq<VmArea>, addr: nat, end: nat, i: nat)
    requires i < |areas| && Matches(areas[i], addr, end)
    requires forall k | 0 <= k < |areas| && k != i :: !Matches(areas[k], addr, end)
    ensures Retain(areas, addr, end) == areas[..i] + areas[i + 1..]
    decreases |areas|
  {
    if i == 0 {
      RetainAll(areas[1..], addr, end);
    } else {
      RetainOne(areas[1..], addr, end, i - 1);
      assert areas[1..][..i - 1] == areas[1..i];
      assert areas[..i] == [areas[0]] + areas[1..i];
    }
  }

  lemma {:induction false} RetainAll(areas: seq<VmArea>, addr: nat, end: nat)
    requires forall a | a in areas :: !Matches(a, addr, end)
    ensures Retain(areas, addr, end) == areas
    decreases |areas|
  {
    if areas != [] {
      RetainAll(areas[1..], addr, end);
    }
  }

  /** A munmap succeeds exactly when some area spans exactly [addr, addr + len). It then removes that one area,
      unmaps exactly its pages and frees exactly their frames; otherwise it changes nothing. */
  lemma MunmapExact(u: User, addr: u64, len: u64) returns (i: nat)
    requires UserInv(u)
    ensures var o := MunmapSpec(u, addr, len);
            && (o.ret == 0 <==> exists a :: a in u.areas && Matches(a, addr, addr + len))
            && (o.ret != 0 ==> o.ret == EINVAL && o.user == u)
            && (o.ret == 0 ==>
                  && i < |u.areas| && Matches(u.areas[i], addr, addr + len)
                  && o.user.areas == u.areas[..i] + u.areas[i + 1..]
                  && var a := u.areas[i];
                  && o.user.mem.pt == (map p | p in u.mem.pt && !InRange(p, PageOf(a.start), a.pages) :: u.mem.pt[p])
                  && o.user.mem.free == u.mem.free + FramesIn(u.mem.pt, PageOf(a.start), a.pages)
                  && o.user == u.(mem := o.user.mem, areas := o.user.areas))
  {
    hide Owned, UnmapRange, FramesIn;
    i := 0;
    var end := SaturatingEnd(addr, len);
    forall a | a in u.areas ensures Matches(a, addr, end) <==> Matches(a, addr, addr + len) {
      assert AreaInWindow(a);
    }
    if a :| a in u.areas && Matches(a, addr, addr + len) {
      i :| i < |u.areas| && u.areas[i] == a;
      assert AreaInWindow(a) && addr % PAGE == 0 && len == a.pages * PAGE && len / PAGE == a.pages;
      forall k | 0 <= k < |u.areas| && k != i ensures !Matches(u.areas[k], addr, end) {
        assert AreaInWindow(u.areas[k]);
        assert if k < i then Disjoint(u.areas[k], a) else Disjoint(a, u.areas[k]);
      }
      RetainOne(u.areas, addr, end, i);
      UnmapRangePages(u.mem, PageOf(addr), len / PAGE);
    }
  }

  lemma MunmapKeepsInv(u: User, addr: u64, len: u64)
    requires UserInv(u)
    ensures UserInv(MunmapSpec(u, addr, len).user)
  {
    hide Owned, Universe, MunmapSpec, FramesIn, Retain;
    CallKeeps(u, Munmap(addr, len));
    var i := MunmapExact(u, addr, len);
    var o := MunmapSpec(u, addr, len);
    if o.ret == 0 {
      AfterRemoval(u, i, o.user);
    }
  }

  lemma AfterRemoval(u: User, i: nat, u': User)
    requires BrkInWindow(u) && HeapMapped(u.mem, u.brkEnd) && AreasWellFormed(u)
    requires i < |u.areas| && u'.areas == u.areas[..i] + u.areas[i + 1..]
    requires u' == u.(mem := u'.mem, areas := u'.areas)
    requires var a := u.areas[i];
             u'.mem.pt == map p | p in u.mem.pt && !InRange(p, PageOf(a.start), a.pages) :: u.mem.pt[p]
    ensures HeapMapped(u'.mem, u'.brkEnd) && AreasWellFormed(u')
  {
    var a := u.areas[i];
    assert AreaInWindow(a);
    forall k | 0 <= k < |u'.areas| ensures AreaInWindow(u'.areas[k]) && AreaMapped(u'.mem, u'.areas[k]) {
      var j := if k < i then k else k + 1;
      var b := u'.areas[k];
      assert b == u.areas[j] && b in u.areas;
      assert if j < i then Disjoint(b, a) else Disjoint(a, b);
      OthersUntouched(a, b);
    }
  }

  lemma OthersUntouched(a: VmArea, b: VmArea)
    requires AreaInWindow(a) && AreaInWindow(b) && (Disjoint(a, b) || Disjoint(b, a))
    ensures forall p | InRange(p, PageOf(b.start), b.pages) :: !InRange(p, PageOf(a.start), a.pages)
  {
  }

  // ----- whole runs -----

  lemma CallKeepsInv(u: User, call: Call)
    requires UserInv(u) && SparesHeap(u, call)
    ensures UserInv(Do(u, call).user)
  {
    hide UserInv, BrkSpec, MmapSpec, MunmapSpec, SparesHeap;
    match call
    case Brk(addr) => BrkKeepsInv(u, addr);
    case Mmap(addr, len, prot) => MmapKeepsInv(u, addr, len, prot);
    case Munmap(addr, len) => MunmapKeepsInv(u, addr, len);
    case LoadImage(ranges) => LoadKeepsInv(u, ranges);
    case UnmapImage(hi) => DropKeepsInv(u, hi);
    case MapChildStack => ChildStackKeepsInv(u);
  }

  /** More mappings never hurt, as long as new pages of the brk window are heap pages. */
  lemma GrownKeepsInv(u: User, m': Mem)
    requires UserInv(u) && Owned(m')
    requires forall p | p in u.mem.pt :: p in m'.pt && m'.pt[p] == u.mem.pt[p]
    requires forall p | PageOf(USER_BRK_BASE) <= p < PageOf(USER_BRK_LIMIT) && p in m'.pt && p !in u.mem.pt ::
               m'.pt[p].flags == HEAP_FLAGS
    ensures UserInv(u.(mem := m'))
  {
    hide Owned;
    forall a | a in u.areas ensures AreaMapped(m', a) {
      assert AreaMapped(u.mem, a);
    }
  }

  lemma LoadKeepsInv(u: User, ranges: seq<PageRange>)
    requires UserInv(u) && SparesHeap(u, LoadImage(ranges))
    ensures UserInv(Do(u, LoadImage(ranges)).user)
  {
    hide Owned, Universe, LoadRanges, HeapMapped, AreasWellFormed, UserInv, Reaches;
    assert Owned(u.mem) by {
      InvOwned(u);
    }
    CallKeeps(u, LoadImage(ranges));
    LoadRangesPages(u.mem, ranges);
    var m' := LoadRanges(u.mem, ranges).0;
    forall p | PageOf(USER_BRK_BASE) <= p < PageOf(USER_BRK_LIMIT) && p in m'.pt && p !in u.mem.pt
      ensures m'.pt[p].flags == HEAP_FLAGS
    {
      LoadReaches(u.mem, ranges, p);
      var i: nat :| Reaches(u.mem, ranges, i, p);
      assert InBrkWindow(p);
    }
    GrownKeepsInv(u, m');
  }

  lemma InvOwned(u: User)
    requires UserInv(u)
    ensures Owned(u.mem) && BrkInWindow(u)
  {
  }

  lemma DropKeepsInv(u: User, hi: u64)
    requires UserInv(u) && SparesHeap(u, UnmapImage(hi))
    ensures UserInv(Do(u, UnmapImage(hi)).user)
  {
    hide Owned, Universe, Do;
    CallKeeps(u, UnmapImage(hi));
    DropPages(u, hi);
    var u' := Do(u, UnmapImage(hi)).user;
    forall a, p | a in u.areas && InRange(p, PageOf(a.start), a.pages)
      ensures p in u'.mem.pt && u'.mem.pt[p].flags == a.PageFlags()
    {
      assert AreaInWindow(a) && AreaMapped(u.mem, a) && hi <= a.start;
    }
  }

  lemma ChildStackKeepsInv(u: User)
    requires UserInv(u)
    ensures UserInv(Do(u, MapChildStack).user)
  {
    hide Owned, Universe, Do, HeapMapped, AreasWellFormed, UserInv;
    InvOwned(u);
    CallKeeps(u, MapChildStack);
    ChildStackPages(u);
    GrownKeepsInv(u, Do(u, MapChildStack).user.mem);
  }

  /** A call keeps the invariant if and only if it spares the heap: an image dropped over a heap page or an area unmaps
      it, and an image page in the brk window is later taken for a heap page. */
  lemma InvExactly(u: User, call: Call)
    requires UserInv(u)
    ensures UserInv(Do(u, call).user) <==> SparesHeap(u, call)
  {
    if SparesHeap(u, call) {
      CallKeepsInv(u, call);
    } else if call.UnmapImage? {
      DropBreaks(u, call.imageEnd);
    } else {
      LoadBreaks(u, call.ranges);
    }
  }

  lemma DropBreaks(u: User, hi: u64)
    requires UserInv(u) && !SparesHeap(u, UnmapImage(hi))
    ensures !UserInv(Do(u, UnmapImage(hi)).user)
  {
    hide Owned, Do;
    DropPages(u, hi);
    var u' := Do(u, UnmapImage(hi)).user;
    if hi > USER_BRK_BASE && u.brkEnd != USER_BRK_BASE {
      assert PageOf(USER_BRK_BASE) !in u'.mem.pt && !HeapMapped(u'.mem, u'.brkEnd);
    } else {
      var a :| a in u.areas && hi > a.start;
      assert AreaInWindow(a) && InRange(PageOf(a.start), PageOf(a.start), a.pages);
      assert PageOf(a.start) !in u'.mem.pt && !AreaMapped(u'.mem, a);
    }
  }

  lemma LoadBreaks(u: User, ranges: seq<PageRange>)
    requires UserInv(u) && !SparesHeap(u, LoadImage(ranges))
    ensures !UserInv(Do(u, LoadImage(ranges)).user)
  {
    hide Owned, LoadRanges, LoadFits;
    var i: nat, p: nat :| Reaches(u.mem, ranges, i, p) && InBrkWindow(p) && ranges[i].flags != HEAP_FLAGS;
    LoadReaches(u.mem, ranges, p);
    var u' := Do(u, LoadImage(ranges)).user;
    assert p in u'.mem.pt && u'.mem.pt[p].flags == ranges[i].flags;
    assert !HeapMapped(u'.mem, u'.brkEnd);
  }

  /** The process state at its first instruction: nothing mapped from the heap base up, no area. */
  ghost predicate Boot(u: User) {
    && Owned(u.mem) && u.brkEnd == USER_BRK_BASE && u.areas == [] && u.nextMmap == USER_MMAP_BASE
    && forall p | PageOf(USER_BRK_BASE) <= p < PageOf(USER_MMAP_LIMIT) :: p !in u.mem.pt
  }

  /** The boot state meets everything the run theorems start from. */
  lemma BootMeetsInvariants(u: User)
    requires Boot(u)
    ensures UserInv(u) && HeapExact(u.mem, u.brkEnd) && WindowExact(u)
  {
    hide Owned;
  }

  /** Over every single-process run, with fixed and kernel-chosen addresses and failing calls mixed freely:
      the heap pages are mapped, and the areas are aligned, inside the window, disjoint and mapped. */
  lemma {:induction false} InvOverRuns(u: User, calls: seq<Call>)
    requires UserInv(u) && Sparing(u, calls)
    ensures UserInv(Run(u, calls))
    decreases |calls|
  {
    hide UserInv, Do, SparesHeap;
    if calls != [] {
      CallKeepsInv(u, calls[0]);
      InvOverRuns(Do(u, calls[0]).user, calls[1..]);
    }
  }

  // ----- the kernel's access checks -----

  predicate CoversBrk(brkEnd: nat, addr: nat, end: nat) {
    addr >= USER_BRK_BASE && end <= brkEnd && end <= USER_BRK_LIMIT
  }

  predicate CoversMmap(areas: seq<VmArea>, write: bool, addr: nat, end: nat) {
    exists a :: a in areas && (write ==> a.writable) && addr >= a.start && end <= a.End()
  }

  ghost predicate Accessible(m: Mem, addr: nat, end: nat, write: bool) {
    forall b: nat | addr <= b < end :: PageOf(b) in m.pt && (write ==> m.pt[PageOf(b)].flags.writable)
  }

  lemma AcceptedIsAccessible(u: User, addr: nat, end: nat)
    requires UserInv(u)
    ensures CoversBrk(u.brkEnd, addr, end) ==> Accessible(u.mem, addr, end, true)
    ensures forall write | CoversMmap(u.areas, write, addr, end) :: Accessible(u.mem, addr, end, write)
  {
    hide Owned;
    if CoversBrk(u.brkEnd, addr, end) {
      forall b: nat | addr <= b < end ensures PageOf(b) in u.mem.pt && u.mem.pt[PageOf(b)].flags.writable {
        assert PageOf(USER_BRK_BASE) <= PageOf(b) && PageOf(b) * PAGE < u.brkEnd;
      }
    }
    forall write: bool, a | a in u.areas && (write ==> a.writable) && addr >= a.start && end <= a.End()
      ensures Accessible(u.mem, addr, end, write)
    {
      assert AreaInWindow(a) && AreaMapped(u.mem, a);
      forall b: nat | addr <= b < end
        ensures PageOf(b) in u.mem.pt && (write ==> u.mem.pt[PageOf(b)].flags.writable)
      {
        assert InRange(PageOf(b), PageOf(a.start), a.pages);
      }
    }
  }

  /** Every range the heap and mmap checks accept, at any point of any run from boot, is mapped, and mapped
      writable where the check promises that. */
  lemma AccessChecksSound(u0: User, calls: seq<Call>, addr: nat, end: nat)
    requires Boot(u0) && Sparing(u0, calls)
    ensures var u := Run(u0, calls);
            && (CoversBrk(u.brkEnd, addr, end) ==> Accessible(u.mem, addr, end, true))
            && (CoversMmap(u.areas, false, addr, end) ==> Accessible(u.mem, addr, end, false))
            && (CoversMmap(u.areas, true, addr, end) ==> Accessible(u.mem, addr, end, true))
  {
    InvOverRuns(u0, calls);
    AcceptedIsAccessible(Run(u0, calls), addr, end);
  }

  /** What the range checks read: the image bounds of src/user.rs and the current process. */
  datatype Bounds = Bounds(imageEnd: nat, rwStart: nat, brkEnd: nat, areas: seq<VmArea>)

  predicate InStack(addr: nat, end: nat) {
    addr >= USER_STACK_TOP - PAGE && end <= USER_STACK_TOP
  }

  predicate ReadableRange(b: Bounds, addr: nat, len: nat) {
    var end := addr + len;
    && end < 0x1_0000_0000_0000_0000
    && (|| (addr >= USER_TEXT_BASE && end <= b.imageEnd)
        || InStack(addr, end)
        || CoversBrk(b.brkEnd, addr, end)
        || CoversMmap(b.areas, false, addr, end))
  }

  predicate WritableRange(b: Bounds, addr: nat, len: nat) {
    var end := addr + len;
    && end < 0x1_0000_0000_0000_0000
    && (|| InStack(addr, end)
        || CoversBrk(b.brkEnd, addr, end)
        || CoversMmap(b.areas, true, addr, end)
        || (addr >= b.rwStart && end <= b.imageEnd))
  }

  /** Growing the heap and shrinking it back restores the page table and returns every data frame: all that
      stays behind are new page-table levels. */
  lemma GrowThenShrinkRestores(u: User, addr: u64)
    requires UserInv(u) && HeapExact(u.mem, u.brkEnd) && u.brkEnd < addr <= USER_BRK_LIMIT
    requires BrkSpec(u, addr).mapping == Mapped
    ensures var u' := BrkSpec(BrkSpec(u, addr).user, u.brkEnd).user;
            && u' == u.(mem := u'.mem)
            && u'.mem.pt == u.mem.pt && u'.mem.lost == u.mem.lost
            && u.mem.free == u'.mem.free + (TableFrames(u'.mem) - TableFrames(u.mem))
  {
    hide Owned, Universe, Grow, Shrink;
    var u1 := BrkSpec(u, addr).user;
    var u' := BrkSpec(u1, u.brkEnd).user;
    CallKeeps(u, Brk(addr));
    CallKeeps(u1, Brk(u.brkEnd));
    assert addr <= USER_BRK_LIMIT && u1.mem == Grow(u.mem, u.brkEnd, addr).0;
    assert u'.mem == Shrink(u1.mem, u.brkEnd, addr);
    GrowPages(u.mem, u.brkEnd, addr);
    ShrinkPages(u1.mem, u.brkEnd, addr);
    GrownPagesRemoved(u, u1.mem, u'.mem, addr);
    RestoredFrames(u.mem, u'.mem);
  }

  lemma GrownPagesRemoved(u: User, m1: Mem, m': Mem, addr: nat)
    requires BrkInWindow(u) && HeapExact(u.mem, u.brkEnd) && u.brkEnd < addr <= USER_BRK_LIMIT
    requires forall p | p in u.mem.pt :: p in m1.pt && m1.pt[p] == u.mem.pt[p]
    requires forall p | p in m1.pt && p !in u.mem.pt :: PageOf(u.brkEnd) <= p && p * PAGE < addr
    requires HeapMapped(u.mem, u.brkEnd)
    requires m'.pt == map p | p in m1.pt && !(u.brkEnd <= p * PAGE < addr) :: m1.pt[p]
    ensures m'.pt == u.mem.pt
  {
    forall p | p in u.mem.pt ensures p in m'.pt {
      assert u.brkEnd <= p * PAGE < addr ==> PageOf(USER_BRK_BASE) <= p < PageOf(USER_BRK_LIMIT);
    }
    forall p | p in m'.pt ensures p in u.mem.pt {
      assert p !in u.mem.pt ==> PageOf(USER_BRK_BASE) <= p && p * PAGE < u.brkEnd;
    }
  }

  /** With the same pages mapped and nothing lost, the pool has shrunk by exactly the new tables. */
  lemma RestoredFrames(m: Mem, m': Mem)
    requires Owned(m) && Balanced(m, m') && TablesKept(m, m') && m'.pt == m.pt && m'.lost == m.lost
    ensures m.free == m'.free + (TableFrames(m') - TableFrames(m))
  {
    OwnersDisjoint(m);
    OwnersDisjoint(m');
    assert TableFrames(m) <= TableFrames(m');
    assert UserFrames(m) == UserFrames(m');
    hide Owned, UserFrames, TableFrames;
    assert m.free + TableFrames(m) == m'.free + TableFrames(m');
  }
}
