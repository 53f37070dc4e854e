/** What the memory calls return and which ranges the access checks accept, in addresses and numbers: the partner of
    the specifications in `UserMemory`, which name their constants. */
module MemoryResults {
  import opened Basics
  import opened Paging
  import opened PageRanges
  import opened UserMemory

  // ----- access checks -----

  /** The range lies in [lo, hi). */
  predicate Within(addr: nat, len: nat, lo: nat, hi: nat) {
    lo <= addr && addr + len <= hi
  }

  predicate WithinArea(a: VmArea, addr: nat, len: nat) {
    Within(addr, len, a.start, a.start + 4096 * a.pages)
  }

  /** A range is readable exactly when its end is an address and it lies on the stack page, in the heap below brk_end,
      in one recorded area, or in the image. */
  lemma ReadableExactly(b: Bounds, addr: nat, len: nat)
    ensures ReadableRange(b, addr, len) <==>
            && addr + len < 0x1_0000_0000_0000_0000
            && (|| Within(addr, len, 0x401000, 0x402000)
                || Within(addr, len, 0x404000, Min(b.brkEnd, 0x410000))
                || (exists a :: a in b.areas && WithinArea(a, addr, len))
                || Within(addr, len, 0x400000, b.imageEnd))
  {
    AreasCover(b, false, addr, len);
    hide CoversMmap;
  }

  /** A range is writable exactly when its end is an address and it lies on the stack page, in the heap below brk_end,
      in one recorded writable area, or in the writable part of the image. */
  lemma WritableExactly(b: Bounds, addr: nat, len: nat)
    ensures WritableRange(b, addr, len) <==>
            && addr + len < 0x1_0000_0000_0000_0000
            && (|| Within(addr, len, 0x401000, 0x402000)
                || Within(addr, len, 0x404000, Min(b.brkEnd, 0x410000))
                || (exists a :: a in b.areas && a.writable && WithinArea(a, addr, len))
                || Within(addr, len, b.rwStart, b.imageEnd))
  {
    AreasCover(b, true, addr, len);
    hide CoversMmap;
  }

  lemma AreasCover(b: Bounds, write: bool, addr: nat, len: nat)
    ensures CoversMmap(b.areas, write, addr, addr + len) <==>
            exists a :: a in b.areas && (write ==> a.writable) && WithinArea(a, addr, len)
  {
    if CoversMmap(b.areas, write, addr, addr + len) {
      var a :| a in b.areas && (write ==> a.writable) && addr >= a.start && addr + len <= a.End();
      assert WithinArea(a, addr, len);
    }
  }

  /** The stack page is accepted for both, whatever the process. */
  lemma StackAccepted(b: Bounds, addr: nat, len: nat)
    requires Within(addr, len, 0x401000, 0x402000)
    ensures ReadableRange(b, addr, len) && WritableRange(b, addr, len)
  {
  }

  /** So is the heap up to brk_end. */
  lemma HeapAccepted(b: Bounds, addr: nat, len: nat)
    requires b.brkEnd <= 0x410000 && Within(addr, len, 0x404000, b.brkEnd)
    ensures ReadableRange(b, addr, len) && WritableRange(b, addr, len)
  {
  }

  /** A range inside one recorded area may be read, and written when the area is writable. */
  lemma AreaAccepted(b: Bounds, a: VmArea, addr: nat, len: nat)
    requires a in b.areas && WithinArea(a, addr, len) && addr + len < 0x1_0000_0000_0000_0000
    ensures ReadableRange(b, addr, len) && (a.writable ==> WritableRange(b, addr, len))
  {
    ReadableExactly(b, addr, len);
    WritableExactly(b, addr, len);
  }

  /** The image may be read, and written from the start of its writable part. */
  lemma ImageAccepted(b: Bounds, addr: nat, len: nat)
    requires addr + len < 0x1_0000_0000_0000_0000
    ensures Within(addr, len, 0x400000, b.imageEnd) ==> ReadableRange(b, addr, len)
    ensures Within(addr, len, b.rwStart, b.imageEnd) ==> WritableRange(b, addr, len)
  {
  }

  /** Part of an accepted range is accepted. */
  lemma PartAccepted(b: Bounds, addr: nat, len: nat, from: nat, n: nat)
    requires addr <= from && from + n <= addr + len
    ensures ReadableRange(b, addr, len) ==> ReadableRange(b, from, n)
    ensures WritableRange(b, addr, len) ==> WritableRange(b, from, n)
  {
  }

  /** A range that may be written may be read, unless it starts in a writable part of the image below 0x400000. */
  lemma WritableIsReadable(b: Bounds, addr: nat, len: nat)
    requires WritableRange(b, addr, len) && (addr >= 0x400000 || !Within(addr, len, b.rwStart, b.imageEnd))
    ensures ReadableRange(b, addr, len)
  {
    ReadableExactly(b, addr, len);
    WritableExactly(b, addr, len);
  }

  /** So with areas in their window, everything that may be written may be read exactly when the writable part of the
      image starts at 0x400000 or above, or is nowhere. */
  lemma WritableReadableExactly(b: Bounds)
    requires forall a | a in b.areas :: AreaInWindow(a)
    ensures (forall addr: nat, len: nat | WritableRange(b, addr, len) :: ReadableRange(b, addr, len)) <==>
            0x400000 <= b.rwStart || b.imageEnd < b.rwStart
  {
    if 0x400000 <= b.rwStart || b.imageEnd < b.rwStart {
      forall addr: nat, len: nat | WritableRange(b, addr, len) ensures ReadableRange(b, addr, len) {
        WritableIsReadable(b, addr, len);
      }
    } else {
      WritableExactly(b, b.rwStart, 0);
      ReadableExactly(b, b.rwStart, 0);
      assert WritableRange(b, b.rwStart, 0) && !ReadableRange(b, b.rwStart, 0);
    }
  }

  /** In the mmap window the checks answer as the page table does: outside the image's recorded bounds, a byte may be
      read if and only if its page is mapped, and written if and only if that page is mapped writable. */
  lemma WindowByteExactly(u: User, b: Bounds, addr: nat)
    requires UserInv(u) && WindowExact(u) && b.areas == u.areas && b.brkEnd == u.brkEnd && 0x410000 <= addr < 0x480000
    ensures ReadableRange(b, addr, 1) <==> addr / 4096 in u.mem.pt || addr < b.imageEnd
    ensures WritableRange(b, addr, 1) <==>
            || (addr / 4096 in u.mem.pt && u.mem.pt[addr / 4096].flags.writable)
            || b.rwStart <= addr < b.imageEnd
  {
    hide Owned, HeapMapped;
    var p := PageOf(addr);
    if p in u.mem.pt {
      assert Covered(u.areas, p);
      var a :| a in u.areas && InRange(p, PageOf(a.start), a.pages);
      assert AreaInWindow(a) && AreaMapped(u.mem, a);
      AreaAccepted(b, a, addr, 1);
    }
    forall a | a in u.areas && WithinArea(a, addr, 1)
      ensures p in u.mem.pt && u.mem.pt[p].flags.writable == a.writable
    {
      assert AreaInWindow(a) && AreaMapped(u.mem, a);
      assert InRange(p, PageOf(a.start), a.pages);
    }
    ReadableExactly(b, addr, 1);
    WritableExactly(b, addr, 1);
  }

  // ----- brk, mmap and munmap -----

  /** brk answers zero with the present end, an end outside [0x404000, 0x410000] with -12, and any other end with that
      end, or with -12 when growing runs out of frames. A lower end unmaps exactly the pages that start in [addr,
      brk_end) and frees their frames; a higher one maps the pages from brk_end's own up in order, writable and not
      executable, passing over those that are there. Nothing else moves. */
  lemma BrkReturns(u: User, addr: u64)
    requires Owned(u.mem) && BrkInWindow(u)
    ensures var o := BrkSpec(u, addr);
            && o.user == u.(mem := o.user.mem, brkEnd := o.user.brkEnd)
            && (addr == 0 ==> o.ret == u.brkEnd && o.user == u)
            && (0 < addr < 0x404000 || addr > 0x410000 ==> o.ret == 0x1_0000_0000_0000_0000 - 12 && o.user == u)
            && (0x404000 <= addr <= u.brkEnd ==> o.ret == addr == o.user.brkEnd)
            && (addr == u.brkEnd ==> o.user == u)
            && (0x404000 <= addr < u.brkEnd ==>
                  && o.user.mem.pt == (map p | p in u.mem.pt && !(addr <= 4096 * p < u.brkEnd) :: u.mem.pt[p])
                  && o.user.mem.free
                     == u.mem.free + (set p | p in u.mem.pt && addr <= 4096 * p < u.brkEnd :: u.mem.pt[p].frame)
                  && o.user.mem.tables == u.mem.tables && o.user.mem.lost == u.mem.lost)
            && (u.brkEnd < addr <= 0x410000 ==>
                  && (o.user.mem, o.mapping)
                     == MapRange(u.mem, u.brkEnd / 4096, (addr - 1) / 4096 - u.brkEnd / 4096 + 1, Flags(true, true),
                                 true)
                  && (o.mapping == Mapped ==> o.ret == addr == o.user.brkEnd)
                  && (o.mapping != Mapped ==>
                        && o.ret == 0x1_0000_0000_0000_0000 - 12 && o.user.brkEnd == u.brkEnd && o.user.mem.free == {}))
            && (forall p | p in o.user.mem.pt && p !in u.mem.pt ::
                  o.user.mem.pt[p].flags.writable && o.user.mem.pt[p].flags.noExecute)
  {
    hide Owned, Universe, BrkSpec;
    BrkPages(u, addr);
    BrkResult(u, addr);
    hide BrkEffect;
    BrkAsked(u, addr);
    NewHeapPages(u, BrkSpec(u, addr));
    if 0x404000 <= addr < u.brkEnd {
      ShrinkPages(u.mem, addr, u.brkEnd);
    }
  }

  lemma NewHeapPages(u: User, o: Outcome)
    requires BrkEffect(u, o)
    ensures o.user == u.(mem := o.user.mem, brkEnd := o.user.brkEnd)
    ensures forall p | p in o.user.mem.pt && p !in u.mem.pt ::
              o.user.mem.pt[p].flags.writable && o.user.mem.pt[p].flags.noExecute
  {
  }

  /** What brk asks of the page table. */
  lemma BrkAsked(u: User, addr: u64)
    ensures var o := BrkSpec(u, addr);
            && (0x404000 <= addr <= 0x410000 && addr < u.brkEnd ==>
                  o.user.mem == Shrink(u.mem, addr, u.brkEnd) && o.mapping == Mapped && o.user.brkEnd == addr)
            && (0x404000 <= addr <= 0x410000 && addr == u.brkEnd ==> o.user == u && o.mapping == Mapped)
            && (0x404000 <= addr <= 0x410000 && u.brkEnd < addr ==>
                  (o.user.mem, o.mapping)
                  == MapRange(u.mem, u.brkEnd / 4096, (addr - 1) / 4096 - u.brkEnd / 4096 + 1, Flags(true, true), true))
  {
    hide MapRange, Shrink;
  }

  /** Bit 1 of the protection asks for write, bit 2 for execute. */
  lemma ProtectionBits(prot: u64)
    ensures ProtWrite(prot) <==> prot % 4 >= 2
    ensures ProtExec(prot) <==> prot % 8 >= 4
  {
    SecondBit(prot);
    ThirdBit(prot);
  }

  /** mmap refuses a length of zero or above 0x70000, and a fixed address that is not a page in [0x410000, 0x480000 -
      len], with -22 and no effect. A request for any address moves the bump pointer by the rounded length whatever
      becomes of it; one that finds the window exhausted does only that and returns -12. Any other request maps its
      pages in order with the protection asked for, and returns its address and records one area, or returns -12 and
      records none. */
  lemma MmapReturns(u: User, addr: u64, len: u64, prot: u64, n: nat)
    requires 4096 * n < len + 4096 <= 4096 * n + 4096
    ensures var o := MmapSpec(u, addr, len, prot);
            if len == 0 || len > 0x70000
               || (addr != 0 && (addr % 4096 != 0 || addr < 0x410000 || addr + len > 0x480000)) then
              o.ret == 0x1_0000_0000_0000_0000 - 22 && o.user == u
            else
              && o.user.nextMmap == (if addr == 0 then u.nextMmap + 4096 * n else u.nextMmap)
              && o.user.brkEnd == u.brkEnd
              && if addr == 0 && u.nextMmap + 4096 * n > 0x480000 then
                   o.ret == 0x1_0000_0000_0000_0000 - 12 && o.user == u.(nextMmap := o.user.nextMmap)
                 else
                   && (o.user.mem, o.mapping)
                      == MapRange(u.mem, (if addr == 0 then u.nextMmap else addr) / 4096, n,
                                  Flags(prot % 4 >= 2, prot % 8 < 4), false)
                   && if o.mapping == Mapped then
                        && o.ret == (if addr == 0 then u.nextMmap else addr) && o.user.nextId == u.nextId + 1
                        && o.user.areas == u.areas + [VmArea(u.nextId, o.ret, n, prot % 4 >= 2, prot % 8 >= 4)]
                      else
                        && o.ret == 0x1_0000_0000_0000_0000 - 12
                        && o.user.areas == u.areas && o.user.nextId == u.nextId
  {
    hide MapRange;
    ProtectionBits(prot);
    assert PagesFor(len) == n;
  }

  /** The pages mmap adds carry exactly the protection asked for. */
  lemma MmapProtects(u: User, addr: u64, len: u64, prot: u64, p: nat)
    requires p in MmapSpec(u, addr, len, prot).user.mem.pt && p !in u.mem.pt
    ensures var f := MmapSpec(u, addr, len, prot).user.mem.pt[p].flags;
            (f.writable <==> prot % 4 >= 2) && (f.noExecute <==> prot % 8 < 4)
  {
    hide MapRange;
    ProtectionBits(prot);
    var flags := Flags(ProtWrite(prot), !ProtExec(prot));
    MapRangePages(u.mem, PageOf(u.nextMmap), PagesFor(len), flags, false);
    MapRangePages(u.mem, PageOf(addr), PagesFor(len), flags, false);
  }

  predicate Spans(a: VmArea, addr: nat, len: nat) {
    a.start == addr && 4096 * a.pages == len
  }

  /** The areas that do not span [addr, addr + len), in order. */
  function Rest(areas: seq<VmArea>, addr: nat, len: nat): (left: seq<VmArea>)
    ensures |left| <= |areas| && forall a :: a in left <==> a in areas && !Spans(a, addr, len)
  {
    if areas == [] then []
    else
      var n := |areas| - 1;
      assert areas == areas[..n] + [areas[n]];
      Rest(areas[..n], addr, len) + if Spans(areas[n], addr, len) then [] else [areas[n]]
  }

  lemma {:induction false} RetainSnoc(areas: seq<VmArea>, a: VmArea, addr: nat, end: nat)
    ensures Retain(areas + [a], addr, end) == Retain(areas, addr, end) + if Matches(a, addr, end) then [] else [a]
    decreases |areas|
  {
    if areas != [] {
      assert (areas + [a])[1..] == areas[1..] + [a];
      RetainSnoc(areas[1..], a, addr, end);
    }
  }

  lemma {:induction false} RetainRest(areas: seq<VmArea>, addr: nat, len: nat, end: nat)
    requires forall a | a in areas :: Matches(a, addr, end) <==> Spans(a, addr, len)
    ensures Retain(areas, addr, end) == Rest(areas, addr, len)
    decreases |areas|
  {
    if areas != [] {
      var n := |areas| - 1;
      assert areas == areas[..n] + [areas[n]];
      RetainRest(areas[..n], addr, len, end);
      RetainSnoc(areas[..n], areas[n], addr, end);
    }
  }

  /** Whatever is still mapped, munmap succeeds exactly when some area starts at addr and is len bytes long. It then
      drops every such area and no other, unmaps the pages of [addr, addr + len) that are mapped and frees their frames;
      otherwise it returns -22 and changes nothing. It leaves the order of the areas and the bump pointer alone. */
  lemma MunmapReturns(u: User, addr: u64, len: u64)
    requires Owned(u.mem) && forall a | a in u.areas :: AreaInWindow(a)
    ensures var o := MunmapSpec(u, addr, len);
            && (o.ret == 0 <==> exists a :: a in u.areas && Spans(a, addr, len))
            && (o.ret != 0 ==> o.ret == 0x1_0000_0000_0000_0000 - 22 && o.user == u)
            && (o.ret == 0 ==>
                  && o.user == u.(mem := o.user.mem, areas := Rest(u.areas, addr, len))
                  && o.user.mem.pt == (map p | p in u.mem.pt && !(addr <= 4096 * p < addr + len) :: u.mem.pt[p])
                  && o.user.mem.free
                     == u.mem.free + (set p | p in u.mem.pt && addr <= 4096 * p < addr + len :: u.mem.pt[p].frame)
                  && o.user.mem.tables == u.mem.tables && o.user.mem.lost == u.mem.lost)
  {
    hide Owned, UnmapRange, Retain, Rest;
    var end := SaturatingEnd(addr, len);
    forall a | a in u.areas ensures Matches(a, addr, end) <==> Spans(a, addr, len) {
      assert AreaInWindow(a);
    }
    if a :| a in u.areas && Spans(a, addr, len) {
      assert AreaInWindow(a) && Matches(a, addr, end) && addr % PAGE == 0 && len / PAGE == a.pages;
      RetainRest(u.areas, addr, len, end);
      UnmapRangePages(u.mem, PageOf(addr), len / PAGE);
      assert forall p: nat :: InRange(p, PageOf(addr), len / PAGE) <==> addr <= 4096 * p < addr + len;
    }
  }

  /** Two of the areas span the range. */
  ghost predicate SpannedTwice(areas: seq<VmArea>, addr: nat, len: nat) {
    exists i, j :: 0 <= i < j < |areas| && Spans(areas[i], addr, len) && Spans(areas[j], addr, len)
  }

  /** Exactly one area goes exactly when some area spans the range and no two do; with the areas pairwise disjoint, as
      they are while the memory invariant holds, no two do. */
  lemma {:induction false} OneAreaGoes(areas: seq<VmArea>, addr: nat, len: nat)
    requires exists a :: a in areas && Spans(a, addr, len)
    ensures |Rest(areas, addr, len)| < |areas|
    ensures |Rest(areas, addr, len)| == |areas| - 1 <==> !SpannedTwice(areas, addr, len)
    decreases |areas|
  {
    hide Spans;
    var n := |areas| - 1;
    var front, last := areas[..n], areas[n];
    assert areas == front + [last];
    if a :| a in front && Spans(a, addr, len) {
      OneAreaGoes(front, addr, len);
      LastSpans(areas, addr, len);
    } else {
      NoneGoes(front, addr, len);
      assert forall i | 0 <= i < n :: areas[i] in front;
    }
  }

  /** With one spanning area in front, the last one decides whether there are two. */
  lemma LastSpans(areas: seq<VmArea>, addr: nat, len: nat)
    requires areas != [] && exists a :: a in areas[..|areas| - 1] && Spans(a, addr, len)
    ensures SpannedTwice(areas, addr, len) <==>
            Spans(areas[|areas| - 1], addr, len) || SpannedTwice(areas[..|areas| - 1], addr, len)
  {
    hide Spans;
    var n := |areas| - 1;
    var front := areas[..n];
    var a :| a in front && Spans(a, addr, len);
    var k :| 0 <= k < n && front[k] == a;
    assert areas[k] == a;
    if SpannedTwice(front, addr, len) {
      var i, j :| 0 <= i < j < n && Spans(front[i], addr, len) && Spans(front[j], addr, len);
      assert areas[i] == front[i] && areas[j] == front[j];
    }
    if SpannedTwice(areas, addr, len) && !Spans(areas[n], addr, len) {
      var i, j :| 0 <= i < j < |areas| && Spans(areas[i], addr, len) && Spans(areas[j], addr, len);
      assert j < n && areas[i] == front[i] && areas[j] == front[j];
    }
  }

  lemma {:induction false} AllGo(areas: seq<VmArea>, addr: nat, len: nat)
    requires forall a | a in areas :: Spans(a, addr, len)
    ensures Rest(areas, addr, len) == []
    decreases |areas|
  {
    if areas != [] {
      AllGo(areas[..|areas| - 1], addr, len);
    }
  }

  lemma {:induction false} NoneGoes(areas: seq<VmArea>, addr: nat, len: nat)
    requires forall a | a in areas :: !Spans(a, addr, len)
    ensures Rest(areas, addr, len) == areas
    decreases |areas|
  {
    if areas != [] {
      var n := |areas| - 1;
      assert areas == areas[..n] + [areas[n]];
      NoneGoes(areas[..n], addr, len);
    }
  }

  // ----- exec's unmap and fork's stack page -----

  /** Dropping an image unmaps exactly the pages from 0x400000 up that start below its end, and frees their frames. */
  lemma ImageDropped(u: User, hi: u64)
    requires Owned(u.mem)
    ensures var u' := Do(u, UnmapImage(hi)).user;
            && u' == u.(mem := u'.mem)
            && u'.mem.pt == (map p | p in u.mem.pt && !(0x400 <= p && 4096 * p < hi) :: u.mem.pt[p])
            && u'.mem.free == u.mem.free + (set p | p in u.mem.pt && 0x400 <= p && 4096 * p < hi :: u.mem.pt[p].frame)
            && u'.mem.tables == u.mem.tables && u'.mem.lost == u.mem.lost
  {
    hide Owned, UnmapRange;
    UnmapRangePages(u.mem, 0x400, ImagePages(hi));
    forall p: nat ensures InRange(p, 0x400, ImagePages(hi)) <==> 0x400 <= p && 4096 * p < hi {
    }
  }

  /** Loading an image maps its ranges one after the other and moves nothing else. */
  lemma ImageLoaded(u: User, ranges: seq<PageRange>)
    ensures var o := Do(u, LoadImage(ranges));
            && o.user == u.(mem := o.user.mem) && (o.user.mem, o.mapping) == LoadRanges(u.mem, ranges)
            && (ranges == [] ==> o.user == u && o.mapping == Mapped)
            && (ranges != [] ==>
                  var g := ranges[0];
                  var (m1, r) := MapRange(u.mem, g.first, g.pages, g.flags, false);
                  && (r != Mapped ==> o.user.mem == m1 && o.mapping == r)
                  && (r == Mapped ==> o == Do(u.(mem := m1), LoadImage(ranges[1..]))))
  {
    hide MapRange;
    LoadRangesStep(u.mem, ranges);
  }

  /** Fork leaves the page at 0x402000 mapped unless it runs out of frames; if it was not mapped before it is writable
      and not executable, and no other page changes. */
  lemma ChildStackMapped(u: User)
    ensures var o := Do(u, MapChildStack);
            && o.user == u.(mem := o.user.mem)
            && (o.user.mem, o.mapping)
               == (if 0x402 in u.mem.pt then (u.mem, Mapped) else AllocAndMap(u.mem, 0x402, Flags(true, true)))
            && (o.mapping == Mapped <==> 0x402 in o.user.mem.pt)
            && (forall p | p != 0x402 :: (p in o.user.mem.pt <==> p in u.mem.pt))
            && (forall p | p in u.mem.pt :: p in o.user.mem.pt && o.user.mem.pt[p] == u.mem.pt[p])
            && (0x402 in o.user.mem.pt && 0x402 !in u.mem.pt ==>
                  o.user.mem.pt[0x402].flags.writable && o.user.mem.pt[0x402].flags.noExecute)
  {
    hide AllocAndMap;
    AllocAndMapPages(u.mem, 0x402, HEAP_FLAGS);
    MapRangePages(u.mem, 0x402, 1, HEAP_FLAGS, true);
    MapRangeSplits(u.mem, 0x402, 1, 0, HEAP_FLAGS, true);
    assert InRange(0x402, 0x402, 1);
  }
}
