/** `sys_brk`, `sys_mmap`, `sys_munmap` and the kernel's access checks, updating the process in place. */
module ProcessMemory {
  import opened Basics
  import opened FrameBitmap
  import opened Paging
  import opened AddressSpace
  import opened UserMemory

  lemma RetainStep(areas: seq<VmArea>, i: nat, addr: nat, end: nat)
    requires i <= |areas|
    ensures i == |areas| ==> Retain(areas[i..], addr, end) == []
    ensures i < |areas| ==>
              Retain(areas[i..], addr, end)
              == (if Matches(areas[i], addr, end) then [] else [areas[i]]) + Retain(areas[i + 1..], addr, end)
  {
    assert i < |areas| ==> areas[i..][1..] == areas[i + 1..];
  }

  /** Each page that was added is backed by a frame that was free, and reads as whatever that frame held. */
  ghost predicate ShowsOldFrames(m: Mem, pt': map<nat, Pte>, ram: map<nat, byte>) {
    forall va: nat | PageOf(va) in pt' && PageOf(va) !in m.pt ::
      && pt'[PageOf(va)].frame in m.free && PhysOf(pt'[PageOf(va)], va) in ram
      && ReadVirt(pt', ram, va) == Some(ram[PhysOf(pt'[PageOf(va)], va)])
  }

  lemma LoopShowsOldFrames(m: Mem, first: nat, n: nat, flags: Flags, skip: bool, ram: map<nat, byte>)
    requires Owned(m) && forall a: nat :: a in ram <==> a < RAM_BYTES
    ensures ShowsOldFrames(m, MapRange(m, first, n, flags, skip).0.pt, ram)
  {
    hide MapRange;
    MapRangePages(m, first, n, flags, skip);
    var pt' := MapRange(m, first, n, flags, skip).0.pt;
    forall va: nat | PageOf(va) in pt' && PageOf(va) !in m.pt
      ensures pt'[PageOf(va)].frame in m.free && PhysOf(pt'[PageOf(va)], va) in ram
    {
      assert 0 < pt'[PageOf(va)].frame < FRAME_BITMAP_BITS;
    }
  }

  lemma ShrinkAddsNothing(m: Mem, newEnd: nat, oldEnd: nat, ram: map<nat, byte>)
    requires Owned(m) && USER_BRK_BASE <= newEnd < oldEnd
    ensures ShowsOldFrames(m, Shrink(m, newEnd, oldEnd).pt, ram)
  {
    hide Owned, Shrink;
    ShrinkPages(m, newEnd, oldEnd);
  }

  lemma NothingNew(m: Mem, pt': map<nat, Pte>, ram: map<nat, byte>)
    requires forall p | p in pt' :: p in m.pt
    ensures ShowsOldFrames(m, pt', ram)
  {
  }

  /** One page is mapped, unmapped, and another one mapped: the new page has the old one's frame, so the program reads
      in it what it, or another process, had left in the old one. */
  lemma RecycledPageShowsOldBytes(u: User, prot: u64, prot': u64, ram: map<nat, byte>, k: nat)
    requires UserInv(u) && k < PAGE
    requires MmapTarget(u, 0, PAGE).Some? && MmapSpec(u, 0, PAGE, prot).mapping == Mapped
    requires var u2 := MunmapSpec(MmapSpec(u, 0, PAGE, prot).user, u.nextMmap, PAGE).user;
             MmapTarget(u2, 0, PAGE).Some? && MmapSpec(u2, 0, PAGE, prot').mapping == Mapped
    ensures var u1 := MmapSpec(u, 0, PAGE, prot).user;
            var u2 := MunmapSpec(u1, u.nextMmap, PAGE).user;
            var u3 := MmapSpec(u2, 0, PAGE, prot').user;
            && u2.nextMmap == u.nextMmap + PAGE && PageOf(u.nextMmap) !in u3.mem.pt
            && PageOf(u2.nextMmap) in u3.mem.pt && PageOf(u.nextMmap) in u1.mem.pt
            && ReadVirt(u3.mem.pt, ram, u2.nextMmap + k) == ReadVirt(u1.mem.pt, ram, u.nextMmap + k)
  {
    hide Owned, HeapMapped, AreaMapped, UnmapRange, Retain, FramesIn, MapRange;
    var base, page := u.nextMmap, PageOf(u.nextMmap);
    var u1 := MmapSpec(u, 0, PAGE, prot).user;
    var u2 := MunmapSpec(u1, base, PAGE).user;
    var u3 := MmapSpec(u2, 0, PAGE, prot').user;
    assert PagesFor(PAGE) == 1;
    OnePage(u.mem, page, Flags(ProtWrite(prot), !ProtExec(prot)));
    MmapKeepsInv(u, 0, PAGE, prot);
    MmapResult(u, 0, PAGE, prot);
    Unmapped(u1, base);
    OnePage(u2.mem, page + 1, Flags(ProtWrite(prot'), !ProtExec(prot')));
    var f := Lowest(u.mem.free);
    assert u1.mem.pt[page].frame == f;
    assert u2.mem.free == u1.mem.free + {f};
    assert Lowest(u2.mem.free) == f;
    assert u3.mem.pt[page + 1].frame == f;
  }

  /** A one-page loop that succeeds takes the lowest free frame. */
  lemma OnePage(m: Mem, page: nat, flags: Flags)
    ensures var (m', r) := MapRange(m, page, 1, flags, false);
            r == Mapped ==> && m.free != {} && page in m'.pt && m'.pt[page].frame == Lowest(m.free)
                            && m'.pt == m.pt[page := m'.pt[page]] && m'.free <= m.free && page !in m.pt
  {
    hide AllocAndMap;
    AllocAndMapPages(m, page, flags);
    var m1 := AllocAndMap(m, page, flags).0;
    assert MapRange(m1, page + 1, 0, flags, false) == (m1, Mapped);
  }

  /** The munmap of the last area, of one page. */
  lemma Unmapped(u: User, base: u64)
    requires UserInv(u) && u.areas != [] && u.areas[|u.areas| - 1].start == base && u.areas[|u.areas| - 1].pages == 1
    ensures var u' := MunmapSpec(u, base, PAGE).user;
            && u'.nextMmap == u.nextMmap && PageOf(base) in u.mem.pt
            && u'.mem.pt == u.mem.pt - {PageOf(base)} && u'.mem.free == u.mem.free + {u.mem.pt[PageOf(base)].frame}
  {
    hide Owned, HeapMapped, MunmapSpec;
    var a, page := u.areas[|u.areas| - 1], PageOf(base);
    assert a in u.areas && Matches(a, base, base + PAGE);
    var i := MunmapExact(u, base, PAGE);
    assert AreaInWindow(u.areas[i]) && AreaInWindow(a) && AreaMapped(u.mem, a) && InRange(page, page, 1);
    var u' := MunmapSpec(u, base, PAGE).user;
    assert u.areas[i].pages == 1;
    assert forall p: nat :: InRange(p, page, 1) <==> p == page;
    assert FramesIn(u.mem.pt, page, 1) == {u.mem.pt[page].frame};
    assert u'.mem.pt == u.mem.pt - {page};
  }

  /** Address and number of the i-th page that exec drops, and when it is the last. */
  lemma PagesDone(hi: nat, i: nat)
    requires hi <= LOWER_HALF && i <= ImagePages(hi)
    ensures var va := USER_TEXT_BASE + i * PAGE;
            && PageOf(va) == PageOf(USER_TEXT_BASE) + i && (va < hi <==> i < ImagePages(hi))
            && (Canonical(va) <==> va < LOWER_HALF) && (va < hi ==> va + PAGE <= LOWER_HALF)
  {
  }

  lemma UnmapStep(m: Mem, first: nat, n: nat)
    ensures UnmapRange(m, first, n) == if n == 0 then m else UnmapRange(UnmapFree(m, first), first + 1, n - 1)
  {
  }

  class Process {
    const space: Space
    var brkEnd: nat
    var areas: seq<VmArea>
    /** NEXT_MMAP and VM_AREA_NEXT_ID */
    var nextMmap: nat
    var nextId: nat
    /** USER_IMAGE_END and USER_RW_IMAGE_START */
    var imageEnd: u64
    var rwStart: nat

    constructor (space: Space)
      ensures this.space == space
      ensures View() == User(space.View(), USER_BRK_BASE, [], USER_MMAP_BASE, 1)
      ensures imageEnd == rwStart == USER_TEXT_BASE + PAGE
    {
      this.space := space;
      brkEnd, areas, nextMmap, nextId := USER_BRK_BASE, [], USER_MMAP_BASE, 1;
      imageEnd, rwStart := USER_TEXT_BASE + PAGE, USER_TEXT_BASE + PAGE;
    }

    ghost predicate Valid()
      reads this, space, space.frames, space.frames.bitmap
    {
      space.Valid() && UserInv(View())
    }

    ghost function View(): User
      reads this, space, space.frames, space.frames.bitmap
    {
      User(space.View(), brkEnd, areas, nextMmap, nextId)
    }

    /** The step of the specification, from any memory with single ownership; the invariant is kept where it holds. */
    method SysBrk(addr: u64) returns (ret: nat, ghost mapping: MapResult)
      requires space.Valid() && Owned(space.View())
      modifies this`brkEnd, space, space.frames, space.frames.bitmap
      ensures space.Valid() && Owned(space.View()) && (old(Valid()) ==> Valid())
      ensures space.ram == old(space.ram) && ShowsOldFrames(old(space.View()), space.pt, space.ram)
      ensures Outcome(View(), ret, mapping) == BrkSpec(old(View()), addr)
    {
      hide UserInv, MapRange, Shrink, ShowsOldFrames, Owned, Universe;
      CallKeeps(View(), Brk(addr));
      if Valid() {
        BrkKeepsInv(View(), addr);
      }
      NothingNew(space.View(), space.pt, space.ram);
      mapping := Mapped;
      if addr == 0 {
        return brkEnd, mapping;
      }
      if addr < USER_BRK_BASE || addr > USER_BRK_LIMIT {
        return ENOMEM, mapping;
      }
      var oldEnd := brkEnd;
      if addr < oldEnd {
        ShrinkAddsNothing(space.View(), addr, oldEnd, space.ram);
        MapBrkShrink(addr, oldEnd);
        brkEnd := addr;
        return addr, mapping;
      }
      if addr == oldEnd {
        return addr, mapping;
      }
      var n := PageOf(addr - 1) - PageOf(oldEnd) + 1;
      LoopShowsOldFrames(space.View(), PageOf(oldEnd), n, HEAP_FLAGS, true, space.ram);
      var r := space.MapPages(PageOf(oldEnd), n, HEAP_FLAGS, true);
      mapping := r;
      if r != Mapped {
        return ENOMEM, mapping;
      }
      brkEnd := addr;
      ret := addr;
    }

    method MapBrkShrink(newEnd: nat, oldEnd: nat)
      requires space.Valid()
      modifies space, space.frames, space.frames.bitmap
      ensures space.Valid() && space.ram == old(space.ram)
      ensures space.View() == Shrink(old(space.View()), newEnd, oldEnd)
    {
      if newEnd >= oldEnd || newEnd < USER_BRK_BASE {
        return;
      }
      var lo := AlignUp(newEnd, PAGE);
      if lo >= oldEnd {
        return;
      }
      space.UnmapPages(PageOf(lo), PageOf(oldEnd - 1) - PageOf(lo) + 1);
    }

    method SysMmap(addr: u64, len: u64, prot: u64) returns (ret: nat, ghost mapping: MapResult)
      requires space.Valid() && Owned(space.View())
      modifies this`areas, this`nextMmap, this`nextId, space, space.frames, space.frames.bitmap
      ensures space.Valid() && Owned(space.View()) && (old(Valid()) ==> Valid())
      ensures space.ram == old(space.ram) && ShowsOldFrames(old(space.View()), space.pt, space.ram)
      ensures Outcome(View(), ret, mapping) == MmapSpec(old(View()), addr, len, prot)
    {
      hide UserInv, MapRange, ShowsOldFrames, Owned, Universe;
      CallKeeps(View(), Mmap(addr, len, prot));
      if Valid() {
        MmapKeepsInv(View(), addr, len, prot);
      }
      NothingNew(space.View(), space.pt, space.ram);
      mapping := Mapped;
      if len == 0 || len > USER_MMAP_LIMIT - USER_MMAP_BASE {
        return EINVAL, mapping;
      }
      var n := PagesFor(len);
      var base: nat := addr;
      if addr == 0 {
        base := nextMmap;
        nextMmap := nextMmap + n * PAGE;
        if base + n * PAGE > USER_MMAP_LIMIT {
          return ENOMEM, mapping;
        }
      } else {
        if addr % PAGE != 0 {
          return EINVAL, mapping;
        }
        if addr < USER_MMAP_BASE || addr + len > USER_MMAP_LIMIT {
          return EINVAL, mapping;
        }
      }
      var flags := Flags(ProtWrite(prot), !ProtExec(prot));
      LoopShowsOldFrames(space.View(), PageOf(base), n, flags, false, space.ram);
      var r := space.MapPages(PageOf(base), n, flags, false);
      mapping := r;
      if r != Mapped {
        return ENOMEM, mapping;
      }
      areas := areas + [VmArea(nextId, base, n, ProtWrite(prot), ProtExec(prot))];
      nextId := nextId + 1;
      ret := base;
    }

    method SysMunmap(addr: u64, len: u64) returns (ret: nat)
      requires space.Valid() && Owned(space.View())
      modifies this`areas, space, space.frames, space.frames.bitmap
      ensures space.Valid() && Owned(space.View()) && (old(Valid()) ==> Valid()) && space.ram == old(space.ram)
      ensures Outcome(View(), ret, Mapped) == MunmapSpec(old(View()), addr, len)
    {
      hide UserInv, UnmapRange, Owned, Universe;
      CallKeeps(View(), Munmap(addr, len));
      if Valid() {
        MunmapKeepsInv(View(), addr, len);
      }
      if addr % PAGE != 0 || len == 0 {
        return EINVAL;
      }
      var end := SaturatingEnd(addr, len);
      var removed := RetainAreas(addr, end);
      if !removed {
        return EINVAL;
      }
      space.UnmapPages(PageOf(addr), len / PAGE);
      ret := 0;
    }

    /** `unmap_old_image_best_effort`; it stops with a panic at the first address that is not canonical. */
    method UnmapOldImage() returns (ok: bool)
      requires space.Valid()
      modifies space, space.frames, space.frames.bitmap
      ensures space.Valid() && space.ram == old(space.ram)
      ensures ok <==> imageEnd <= LOWER_HALF
      ensures View() == Do(old(View()), UnmapImage(Min(imageEnd, LOWER_HALF))).user
    {
      hide UnmapRange, UnmapFree, FreeSet, PageOf, ImagePages, Canonical;
      var va := USER_TEXT_BASE;
      ghost var hi, i := Min(imageEnd, LOWER_HALF), 0;
      ghost var total := ImagePages(hi);
      PagesDone(hi, 0);
      while va < imageEnd
        invariant va == USER_TEXT_BASE + i * PAGE <= LOWER_HALF && i <= total && (va < hi <==> i < total)
        invariant space.Valid() && space.ram == old(space.ram)
        invariant UnmapRange(old(space.View()), PageOf(USER_TEXT_BASE), total)
               == UnmapRange(space.View(), PageOf(USER_TEXT_BASE) + i, total - i)
        decreases total - i
      {
        PagesDone(hi, i);
        UnmapStep(space.View(), PageOf(USER_TEXT_BASE) + i, total - i);
        if !Canonical(va) {
          return false;
        }
        PagesDone(hi, i + 1);
        space.UnmapAndFree(PageOf(va));
        va := va + PAGE;
        i := i + 1;
      }
      UnmapStep(space.View(), PageOf(USER_TEXT_BASE) + i, total - i);
      ok := true;
    }

    /** `apply_user_meta` */
    method ApplyUserMeta(newImageEnd: u64, rwMin: nat)
      modifies this`imageEnd, this`rwStart
      ensures imageEnd == Max(newImageEnd, USER_TEXT_BASE + PAGE) && rwStart == rwMin
    {
      imageEnd := Max(newImageEnd, USER_TEXT_BASE + PAGE);
      rwStart := rwMin;
    }

    /** The `retain` closure: keeps the areas that do not match and reports whether one was dropped. */
    method RetainAreas(addr: nat, end: nat) returns (hit: bool)
      modifies this`areas
      ensures areas == Retain(old(areas), addr, end)
      ensures hit <==> exists a :: a in old(areas) && Matches(a, addr, end)
      ensures !hit ==> areas == old(areas)
    {
      hide Retain;
      var kept: seq<VmArea> := [];
      hit := false;
      assert [] + Retain(areas[0..], addr, end) == Retain(areas, addr, end);
      for i := 0 to |areas|
        invariant areas == old(areas)
        invariant kept + Retain(areas[i..], addr, end) == Retain(areas, addr, end)
        invariant hit <==> exists a :: a in areas[..i] && Matches(a, addr, end)
        invariant !hit ==> kept == areas[..i]
      {
        var a := areas[i];
        assert areas[..i + 1] == areas[..i] + [a];
        RetainStep(areas, i, addr, end);
        if Matches(a, addr, end) {
          hit := true;
        } else {
          kept := kept + [a];
        }
      }
      assert areas[..|areas|] == areas;
      RetainStep(areas, |areas|, addr, end);
      areas := kept;
    }

    // ----- access checks -----

    method CoversMmapArea(write: bool, addr: nat, end: nat) returns (ok: bool)
      ensures ok == CoversMmap(areas, write, addr, end)
    {
      for i := 0 to |areas|
        invariant forall k | 0 <= k < i ::
            !((write ==> areas[k].writable) && addr >= areas[k].start && end <= areas[k].End())
      {
        var a := areas[i];
        if write && !a.writable {
          continue;
        }
        if addr >= a.start && end <= a.End() {
          return true;
        }
      }
      ok := false;
    }

    function Region(): Bounds
      reads this
    {
      Bounds(imageEnd, rwStart, brkEnd, areas)
    }

    /** A range accepted for reading that lies outside image and stack is mapped, if the invariant holds. */
    method IsReadableRange(addr: u64, len: nat) returns (ok: bool)
      ensures ok == ReadableRange(Region(), addr, len)
      ensures ok && Valid() ==>
                || (addr >= USER_TEXT_BASE && addr + len <= imageEnd)
                || InStack(addr, addr + len)
                || Accessible(space.View(), addr, addr + len, false)
    {
      if addr + len >= 0x1_0000_0000_0000_0000 {
        return false;
      }
      var end := addr + len;
      if Valid() {
        AcceptedIsAccessible(View(), addr, end);
      }
      if (addr >= USER_TEXT_BASE && end <= imageEnd) || InStack(addr, end) || CoversBrk(brkEnd, addr, end) {
        return true;
      }
      ok := CoversMmapArea(false, addr, end);
    }

    /** A range accepted for writing that lies outside image and stack is mapped writable, if the invariant holds. */
    method IsWritableRange(addr: u64, len: nat) returns (ok: bool)
      ensures ok == WritableRange(Region(), addr, len)
      ensures ok && Valid() ==>
                || (addr >= rwStart && addr + len <= imageEnd)
                || InStack(addr, addr + len)
                || Accessible(space.View(), addr, addr + len, true)
    {
      if addr + len >= 0x1_0000_0000_0000_0000 {
        return false;
      }
      var end := addr + len;
      if Valid() {
        AcceptedIsAccessible(View(), addr, end);
      }
      if InStack(addr, end) || CoversBrk(brkEnd, addr, end) {
        return true;
      }
      var inArea := CoversMmapArea(true, addr, end);
      if inArea {
        return true;
      }
      ok := addr >= rwStart && end <= imageEnd;
    }
  }
}
