/**
 The one live address space: bitmap allocator, page table and physical memory, edited in place as
 `with_mapper` and `lock_allocator` callers do. Each method is proved to perform the Paging step it names.
 */
module AddressSpace {
  import opened Basics
  import opened FrameBitmap
  import opened Paging

  const RAM_BYTES: nat := FRAME_BITMAP_BITS * PAGE

  /** Where a mapped virtual address lives in physical memory. */
  function PhysOf(pte: Pte, va: nat): nat {
    pte.frame * PAGE + va % PAGE
  }

  /** The byte a user sees at `va`, if `va` is mapped to memory that exists. */
  function ReadVirt(pt: map<nat, Pte>, ram: map<nat, byte>, va: nat): Option<byte> {
    if PageOf(va) in pt && PhysOf(pt[PageOf(va)], va) in ram then Some(ram[PhysOf(pt[PageOf(va)], va)]) else None
  }

  /** Every byte visible through `pt` is still there, unchanged, through `pt'`. */
  ghost predicate SameView(pt: map<nat, Pte>, ram: map<nat, byte>, pt': map<nat, Pte>, ram': map<nat, byte>) {
    forall va: nat | PageOf(va) in pt :: PageOf(va) in pt' && ReadVirt(pt', ram', va) == ReadVirt(pt, ram, va)
  }

  /** Memory outside the frames in play, and every free frame, holds what it held; the next page that gets such a frame
      shows it. */
  ghost predicate ElsewhereKept(m: Mem, ram: map<nat, byte>, ram': map<nat, byte>) {
    && ram'.Keys == ram.Keys
    && forall a: nat | a in ram && (a / PAGE in m.free || a / PAGE !in Universe(m)) :: ram'[a] == ram[a]
  }

  /** From m and ram to m' and ram' the frames in play are the same, none is freed, and nothing else is written. */
  ghost predicate Confined(m: Mem, ram: map<nat, byte>, m': Mem, ram': map<nat, byte>) {
    m'.free <= m.free && Universe(m') == Universe(m) && ElsewhereKept(m', ram, ram')
  }

  lemma ConfinedTwice(m: Mem, ram: map<nat, byte>, m1: Mem, ram1: map<nat, byte>, m2: Mem, ram2: map<nat, byte>)
    requires Confined(m, ram, m1, ram1) && Confined(m1, ram1, m2, ram2)
    ensures Confined(m, ram, m2, ram2)
  {
    hide Universe;
  }

  /** A step that writes no memory. */
  lemma ConfinedQuietly(m: Mem, m': Mem, ram: map<nat, byte>)
    requires m'.free <= m.free && Universe(m') == Universe(m)
    ensures Confined(m, ram, m', ram)
  {
    hide Universe;
  }

  lemma ConfinedKeeps(m: Mem, ram: map<nat, byte>, m': Mem, ram': map<nat, byte>)
    requires Confined(m, ram, m', ram')
    ensures ElsewhereKept(m', ram, ram')
  {
  }

  lemma NothingWritten(m: Mem, ram: map<nat, byte>)
    ensures ElsewhereKept(m, ram, ram)
  {
  }

  /** A store through the page table reaches none of it. */
  lemma StoreConfined(m: Mem, ram: map<nat, byte>, va: nat, b: byte)
    requires Owned(m) && PageOf(va) in m.pt && PhysOf(m.pt[PageOf(va)], va) in ram
    ensures Confined(m, ram, m, ram[PhysOf(m.pt[PageOf(va)], va) := b])
  {
    var f := m.pt[PageOf(va)].frame;
    assert f !in m.free && f in UserFrames(m) && f in Universe(m);
    assert PhysOf(m.pt[PageOf(va)], va) / PAGE == f;
  }

  /** Distinct mapped addresses live in distinct physical bytes when no frame backs two pages. */
  lemma PhysDistinct(m: Mem, va: nat, vb: nat)
    requires Owned(m) && PageOf(va) in m.pt && PageOf(vb) in m.pt && va != vb
    ensures PhysOf(m.pt[PageOf(va)], va) != PhysOf(m.pt[PageOf(vb)], vb)
  {
    hide Universe;
    if PageOf(va) == PageOf(vb) {
      assert va % PAGE != vb % PAGE;
    } else {
      assert m.pt[PageOf(va)].frame != m.pt[PageOf(vb)].frame;
    }
  }

  /** What a store through the page table changes. */
  lemma Stored(m: Mem, ram: map<nat, byte>, va: nat, b: byte)
    requires Owned(m) && PageOf(va) in m.pt && forall a: nat :: a in ram <==> a < RAM_BYTES
    ensures var ram' := ram[PhysOf(m.pt[PageOf(va)], va) := b];
            && ram'.Keys == ram.Keys && Confined(m, ram, m, ram') && ReadVirt(m.pt, ram', va) == Some(b)
            && forall v: nat | v != va && PageOf(v) in m.pt :: ReadVirt(m.pt, ram', v) == ReadVirt(m.pt, ram, v)
  {
    hide Universe, Confined;
    var pa := PhysOf(m.pt[PageOf(va)], va);
    assert 0 < m.pt[PageOf(va)].frame < FRAME_BITMAP_BITS;
    StoreConfined(m, ram, va, b);
    hide Owned;
    forall v: nat | v != va && PageOf(v) in m.pt ensures PhysOf(m.pt[PageOf(v)], v) != pa {
      PhysDistinct(m, v, va);
    }
    assert ram[pa := b].Keys == ram.Keys;
  }

  class Space {
    const frames: BitmapFrameAllocator
    var pt: map<nat, Pte>
    var tables: map<TableId, nat>
    ghost var lost: set<nat>
    /** Physical memory, by physical address; the kernel reaches it through the offset window. */
    var ram: map<nat, byte>

    /** Boot: no user page mapped yet, every frame either free or outside the model's reach. */
    constructor (frames: BitmapFrameAllocator, ram: map<nat, byte>)
      requires frames.Valid() && forall a: nat :: a in ram <==> a < RAM_BYTES
      ensures Valid() && this.frames == frames && this.ram == ram
      ensures View() == Mem(frames.Free(), map[], map[], {})
    {
      this.frames := frames;
      this.ram := ram;
      pt, tables, lost := map[], map[], {};
    }

    ghost predicate Valid()
      reads this, frames, frames.bitmap
    {
      frames.Valid() && forall a: nat :: a in ram <==> a < RAM_BYTES
    }

    ghost function View(): Mem
      reads this, frames, frames.bitmap
    {
      Mem(frames.Free(), pt, tables, lost)
    }

    /** One `create_next_table` of the mapper. */
    method NextTable(id: TableId) returns (ok: bool)
      requires Valid()
      modifies this`tables, frames, frames.bitmap
      ensures Valid()
      ensures (View(), ok) == EnsureTable(old(View()), id)
    {
      if id in tables {
        return true;
      }
      var f := frames.Allocate();
      if f == None {
        return false;
      }
      tables := tables[id := f.value];
      ok := true;
    }

    method MapTo(page: nat, frame: nat, flags: Flags) returns (ok: bool)
      requires Valid()
      modifies this`tables, this`pt, frames, frames.bitmap
      ensures Valid()
      ensures (View(), ok) == Paging.MapTo(old(View()), page, frame, flags)
    {
      var level: nat := 3;
      while level > 0
        invariant level <= 3 && Valid() && pt == old(pt)
        invariant EnsureTables(old(View()), page, 3) == EnsureTables(View(), page, level)
      {
        var created := NextTable(TableFor(page, level));
        if !created {
          return false;
        }
        level := level - 1;
      }
      if page in pt {
        return false;
      }
      pt := pt[page := Pte(frame, flags)];
      ok := true;
    }

    /** `allocate_frame` followed by `map_to`; on refusal the frame is dropped on the floor. */
    method AllocateAndMap(page: nat, flags: Flags) returns (r: MapResult)
      requires Valid()
      modifies this`tables, this`pt, this`lost, frames, frames.bitmap
      ensures Valid()
      ensures (View(), r) == AllocAndMap(old(View()), page, flags)
    {
      var f := frames.Allocate();
      if f == None {
        return NoFrame;
      }
      var ok := MapTo(page, f.value, flags);
      if !ok {
        lost := lost + {f.value};
        return MapFailed;
      }
      r := Mapped;
    }

    /** The page loops of `map_brk_grow` (skipping mapped pages), `map_user_anon_pages` and
        `map_child_stack_and_copy`. */
    method MapPages(first: nat, n: nat, flags: Flags, skip: bool) returns (r: MapResult)
      requires Valid()
      modifies this`tables, this`pt, this`lost, frames, frames.bitmap
      ensures Valid()
      ensures (View(), r) == MapRange(old(View()), first, n, flags, skip)
    {
      hide AllocAndMap, FreeSet;
      var i := 0;
      while i < n
        invariant i <= n && Valid()
        invariant MapRange(old(View()), first, n, flags, skip) == MapRange(View(), first + i, n - i, flags, skip)
      {
        if !(skip && first + i in pt) {
          r := AllocateAndMap(first + i, flags);
          if r != Mapped {
            return;
          }
        }
        i := i + 1;
      }
      r := Mapped;
    }

    method UnmapAndFree(page: nat)
      requires Valid()
      modifies this`pt, frames, frames.bitmap
      ensures Valid()
      ensures View() == UnmapFree(old(View()), page)
    {
      if page in pt {
        var f := pt[page].frame;
        pt := pt - {page};
        frames.Deallocate(f);
      }
    }

    /** The page loops of `map_brk_shrink`, `unmap_user_range` and `unmap_old_image_best_effort`. */
    method UnmapPages(first: nat, n: nat)
      requires Valid()
      modifies this`pt, frames, frames.bitmap
      ensures Valid()
      ensures View() == UnmapRange(old(View()), first, n)
    {
      hide UnmapFree, FreeSet;
      var i := 0;
      while i < n
        invariant i <= n && Valid()
        invariant UnmapRange(old(View()), first, n) == UnmapRange(View(), first + i, n - i)
      {
        UnmapAndFree(first + i);
        i := i + 1;
      }
    }

    /** `write_bytes(kv, 0, 4096)` on a frame. */
    method ZeroFrame(f: nat)
      requires Valid() && f < FRAME_BITMAP_BITS
      modifies this`ram
      ensures Valid() && ram == map a | a in old(ram) :: if f * PAGE <= a < f * PAGE + PAGE then 0 else old(ram)[a]
      ensures forall a: nat | f * PAGE <= a < f * PAGE + PAGE :: ram[a] == 0
      ensures forall va: nat | PageOf(va) in pt && pt[PageOf(va)].frame != f ::
                ReadVirt(pt, ram, va) == ReadVirt(pt, old(ram), va)
    {
      ram := map a | a in ram :: if f * PAGE <= a < f * PAGE + PAGE then 0 else ram[a];
    }

    /** `write_user_byte`: store one byte through the kernel's window; fails when the address is unmapped. */
    method WriteByte(va: nat, b: byte) returns (ok: bool)
      requires Valid() && Owned(View())
      modifies this`ram
      ensures Valid() && ok == (PageOf(va) in pt)
      ensures ok ==> ReadVirt(pt, ram, va) == Some(b) && ram == old(ram)[PhysOf(pt[PageOf(va)], va) := b]
      ensures forall v: nat | v != va && PageOf(v) in pt :: ReadVirt(pt, ram, v) == ReadVirt(pt, old(ram), v)
      ensures !ok ==> ram == old(ram)
      ensures Confined(View(), old(ram), View(), ram)
    {
      hide Owned, Universe, ReadVirt, Confined, PhysOf, FreeSet;
      if PageOf(va) !in pt {
        ConfinedQuietly(View(), View(), ram);
        return false;
      }
      Stored(View(), ram, va, b);
      ram := ram[PhysOf(pt[PageOf(va)], va) := b];
      ok := true;
    }
  }
}
