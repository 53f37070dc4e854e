/**
 Who owns each physical frame: the free pool, a user page, a page-table level, or nobody (`lost`).
 These are the specification functions for the page-table edits of src/paging.rs, src/process.rs, src/elf.rs
 and src/user.rs. The mapper follows the contract of the x86_64 crate's `map_to`: it creates the missing
 table levels from the same allocator, keeps them when it fails later, and refuses a page that is mapped;
 `unmap` hands back the frame and keeps the tables.
 */
module Paging {
  import opened Basics
  import opened FrameBitmap

  /** Every user mapping is PRESENT and USER_ACCESSIBLE; these are the flags that vary. */
  datatype Flags = Flags(writable: bool, noExecute: bool)

  datatype Pte = Pte(frame: nat, flags: Flags)

  /** A page table of level 1, 2 or 3, and the pages it covers: those with `page / 512^level == index`. */
  datatype TableId = TableId(level: nat, index: nat)

  datatype Mem = Mem(free: set<nat>, pt: map<nat, Pte>, tables: map<TableId, nat>, lost: set<nat>)

  datatype MapResult =
    | Mapped
    | NoFrame        // allocate_frame returned None before anything was taken
    | MapFailed      // map_to refused; the data frame stays allocated and unrecorded

  function TableFor(page: nat, level: nat): TableId
    requires 1 <= level <= 3
  {
    TableId(level, if level == 1 then page / 512 else if level == 2 then page / 0x40000 else page / 0x8000000)
  }

  ghost function EnsureTable(m: Mem, id: TableId): (Mem, bool) {
    if id in m.tables then (m, true)
    else if m.free == {} then (m, false)
    else
      var f := Lowest(m.free);
      (m.(free := m.free - {f}, tables := m.tables[id := f]), true)
  }

  /** Levels `level`, ..., 1, from the top down; stops at the first table that cannot be allocated. */
  ghost function EnsureTables(m: Mem, page: nat, level: nat): (Mem, bool)
    requires level <= 3
    decreases level
  {
    if level == 0 then (m, true)
    else
      var (m1, ok) := EnsureTable(m, TableFor(page, level));
      if ok then EnsureTables(m1, page, level - 1) else (m1, false)
  }

  ghost function MapTo(m: Mem, page: nat, frame: nat, flags: Flags): (Mem, bool) {
    var (m1, ok) := EnsureTables(m, page, 3);
    if !ok || page in m1.pt then (m1, false)
    else (m1.(pt := m1.pt[page := Pte(frame, flags)]), true)
  }

  ghost function AllocAndMap(m: Mem, page: nat, flags: Flags): (Mem, MapResult) {
    if m.free == {} then (m, NoFrame)
    else
      var f := Lowest(m.free);
      var (m1, ok) := MapTo(m.(free := m.free - {f}), page, f, flags);
      if ok then (m1, Mapped) else (m1.(lost := m1.lost + {f}), MapFailed)
  }

  /** Map `n` pages in ascending order, stopping at the first failure without undoing anything. With `skip`,
      pages that already translate are passed over. */
  ghost function MapRange(m: Mem, first: nat, n: nat, flags: Flags, skip: bool): (Mem, MapResult)
    decreases n
  {
    if n == 0 then (m, Mapped)
    else if skip && first in m.pt then MapRange(m, first + 1, n - 1, flags, skip)
    else
      var (m1, r) := AllocAndMap(m, first, flags);
      if r == Mapped then MapRange(m1, first + 1, n - 1, flags, skip) else (m1, r)
  }

  /** `unmap_4k_and_free_bitmap`, with its error for an unmapped page ignored as every caller does. */
  ghost function UnmapFree(m: Mem, page: nat): Mem {
    if page !in m.pt then m
    else
      var f := m.pt[page].frame;
      m.(pt := m.pt - {page}, free := FreeSpec(m.free, f))
  }

  ghost function UnmapRange(m: Mem, first: nat, n: nat): Mem
    decreases n
  {
    if n == 0 then m else UnmapRange(UnmapFree(m, first), first + 1, n - 1)
  }

  // ----- ownership -----

  /** No frame backs two user pages, no frame behind a user page or a table is free or lost, and every frame
      in play is one the allocator hands out and takes back. */
  ghost predicate Owned(m: Mem) {
    && (forall p, q | p in m.pt && q in m.pt && p != q :: m.pt[p].frame != m.pt[q].frame)
    && (forall t, u | t in m.tables && u in m.tables && t != u :: m.tables[t] != m.tables[u])
    && (forall p, t | p in m.pt && t in m.tables :: m.pt[p].frame != m.tables[t])
    && (forall p | p in m.pt :: Stray(m, m.pt[p].frame))
    && (forall t | t in m.tables :: Stray(m, m.tables[t]))
    && m.free !! m.lost
    && (forall f | f in m.free || f in m.lost :: 0 < f < FRAME_BITMAP_BITS)
  }

  /** A frame the allocator manages that is neither free nor lost. */
  ghost predicate Stray(m: Mem, f: nat) {
    0 < f < FRAME_BITMAP_BITS && f !in m.free && f !in m.lost
  }

  ghost function UserFrames(m: Mem): set<nat> {
    set p | p in m.pt :: m.pt[p].frame
  }

  ghost function TableFrames(m: Mem): set<nat> {
    Image(m.tables)
  }

  ghost function Image<K>(m: map<K, nat>): set<nat> {
    set k | k in m :: m[k]
  }

  /** Every frame in play. */
  ghost function Universe(m: Mem): set<nat> {
    m.free + UserFrames(m) + TableFrames(m) + m.lost
  }

  ghost function Count(m: Mem): nat {
    |m.free| + |m.pt| + |m.tables| + |m.lost|
  }

  lemma {:induction false} ImageSize<K>(m: map<K, nat>)
    requires forall a, b | a in m && b in m && a != b :: m[a] != m[b]
    ensures |Image(m)| == |m|
    decreases |m|
  {
    if m == map[] {
      assert Image(m) == {};
    } else {
      var k :| k in m;
      var rest := m - {k};
      ImageSize(rest);
      forall j | j in m && j != k ensures j in rest && m[j] in Image(rest) {
        assert j in rest && rest[j] == m[j];
      }
      forall f | f in Image(rest) ensures f in Image(m) && f != m[k] {
        var j :| j in rest && rest[j] == f;
        assert j in m && m[j] == f;
      }
      assert Image(m) == Image(rest) + {m[k]};
    }
  }

  lemma UserFramesSize(m: Mem)
    requires Owned(m)
    ensures |UserFrames(m)| == |m.pt|
  {
    var frames := map p | p in m.pt :: m.pt[p].frame;
    ImageSize(frames);
    assert frames.Keys == m.pt.Keys;
    assert |frames| == |frames.Keys| && |m.pt| == |m.pt.Keys|;
    assert forall p | p in m.pt :: p in frames && frames[p] == m.pt[p].frame && frames[p] in Image(frames);
    assert UserFrames(m) == Image(frames);
  }

  lemma OwnersDisjoint(m: Mem)
    requires Owned(m)
    ensures m.free !! UserFrames(m) && m.free !! TableFrames(m) && m.free !! m.lost
    ensures UserFrames(m) !! TableFrames(m) && UserFrames(m) !! m.lost && TableFrames(m) !! m.lost
  {
  }

  /** The four owners partition the frames in play, so counting owners counts frames. */
  lemma CountIsUniverse(m: Mem)
    requires Owned(m)
    ensures |Universe(m)| == Count(m)
  {
    UserFramesSize(m);
    ImageSize(m.tables);
    OwnersDisjoint(m);
    hide Owned, UserFrames, TableFrames;
    FourDisjoint(m.free, UserFrames(m), TableFrames(m), m.lost);
  }

  lemma FourDisjoint(a: set<nat>, b: set<nat>, c: set<nat>, d: set<nat>)
    requires a !! b && a !! c && a !! d && b !! c && b !! d && c !! d
    ensures |a + b + c + d| == |a| + |b| + |c| + |d|
  {
    assert |a + b| == |a| + |b|;
    assert |a + b + c| == |a + b| + |c|;
    assert |a + b + c + d| == |a + b + c| + |d|;
  }

  // ----- what each edit keeps -----

  /** The frame-accounting half of an edit: ownership holds again and no frame appeared or disappeared. */
  ghost predicate Balanced(m: Mem, m': Mem) {
    Owned(m') && Universe(m') == Universe(m)
  }

  lemma {:induction false} EnsureTablesKeeps(m: Mem, page: nat, level: nat)
    requires Owned(m) && level <= 3
    ensures Balanced(m, EnsureTables(m, page, level).0)
    decreases level
  {
    if level > 0 {
      var (m1, ok) := EnsureTable(m, TableFor(page, level));
      EnsureTableKeeps(m, TableFor(page, level));
      if ok {
        EnsureTablesKeeps(m1, page, level - 1);
      }
    }
  }

  lemma EnsureTableKeeps(m: Mem, id: TableId)
    requires Owned(m)
    ensures Balanced(m, EnsureTable(m, id).0)
  {
    if id !in m.tables && m.free != {} {
      var f := Lowest(m.free);
      var m' := EnsureTable(m, id).0;
      assert TableFrames(m') == TableFrames(m) + {f} by {
        assert m'.tables[id] == f;
        assert forall t | t in m.tables :: t in m'.tables && m'.tables[t] == m.tables[t];
      }
      assert UserFrames(m') == UserFrames(m);
    }
  }

  ghost predicate TablesKept(m: Mem, m': Mem) {
    forall t | t in m.tables :: t in m'.tables && m'.tables[t] == m.tables[t]
  }

  /** The table walk touches only tables and the free pool. */
  lemma {:induction false} EnsureTablesFrame(m: Mem, page: nat, level: nat)
    requires level <= 3
    ensures var m' := EnsureTables(m, page, level).0;
            m'.pt == m.pt && m'.lost == m.lost && m'.free <= m.free && TablesKept(m, m')
    decreases level
  {
    if level > 0 {
      var (m1, ok) := EnsureTable(m, TableFor(page, level));
      if ok {
        EnsureTablesFrame(m1, page, level - 1);
      }
    }
  }

  /** A free frame backs no page. */
  lemma FreeFrameUnmapped(m: Mem, f: nat)
    requires Owned(m) && f in m.free
    ensures f < FRAME_BITMAP_BITS && forall p | p in m.pt :: m.pt[p].frame != f
  {
  }

  lemma TakeFrame(m: Mem)
    requires Owned(m) && m.free != {}
    ensures var m1 := m.(free := m.free - {Lowest(m.free)});
            Owned(m1) && Lowest(m.free) !in Universe(m1) && Universe(m1) + {Lowest(m.free)} == Universe(m)
  {
    var f := Lowest(m.free);
    var m1 := m.(free := m.free - {f});
    assert UserFrames(m1) == UserFrames(m) && TableFrames(m1) == TableFrames(m);
  }

  /** One allocate-and-map keeps ownership and the frames in play, whatever happens, and loses exactly one
      frame exactly when `map_to` refuses. */
  lemma AllocAndMapKeeps(m: Mem, page: nat, flags: Flags)
    requires Owned(m)
    ensures var (m', r) := AllocAndMap(m, page, flags);
            && Balanced(m, m')
            && |m'.lost| == |m.lost| + (if r == MapFailed then 1 else 0)
  {
    if m.free != {} {
      var f := Lowest(m.free);
      var m0 := m.(free := m.free - {f});
      TakeFrame(m);
      var (m1, ok) := EnsureTables(m0, page, 3);
      EnsureTablesKeeps(m0, page, 3);
      EnsureTablesFrame(m0, page, 3);
      OutsideUniverse(m1, f);
      if ok && page !in m1.pt {
        PlaceInPage(m1, page, f, flags);
      } else {
        PlaceInLost(m1, f);
      }
    }
  }

  /** The page-table half: the page is added exactly on success. */
  lemma AllocAndMapPages(m: Mem, page: nat, flags: Flags)
    ensures var (m', r) := AllocAndMap(m, page, flags);
            && m'.free <= m.free && m.lost <= m'.lost && TablesKept(m, m')
            && (r == Mapped ==> page !in m.pt && page in m'.pt && m.free != {} && m'.pt[page].frame == Lowest(m.free)
                                && m'.pt[page].flags == flags && m'.pt == m.pt[page := m'.pt[page]])
            && (r != Mapped ==> m'.pt == m.pt)
            && (r != MapFailed ==> m'.lost == m.lost)
  {
    if m.free != {} {
      EnsureTablesFrame(m.(free := m.free - {Lowest(m.free)}), page, 3);
    }
  }

  /** A frame that no owner has, in terms of the individual mappings. */
  ghost predicate Unowned(m: Mem, f: nat) {
    && 0 < f < FRAME_BITMAP_BITS && f !in m.free && f !in m.lost
    && (forall p | p in m.pt :: m.pt[p].frame != f)
    && (forall t | t in m.tables :: m.tables[t] != f)
  }

  lemma OutsideUniverse(m: Mem, f: nat)
    requires f !in Universe(m) && 0 < f < FRAME_BITMAP_BITS
    ensures Unowned(m, f)
  {
    assert forall p | p in m.pt :: m.pt[p].frame in UserFrames(m);
    assert forall t | t in m.tables :: m.tables[t] in TableFrames(m);
  }

  lemma PlaceInPage(m: Mem, page: nat, f: nat, flags: Flags)
    requires Owned(m) && Unowned(m, f) && page !in m.pt
    ensures var m' := m.(pt := m.pt[page := Pte(f, flags)]);
            Owned(m') && Universe(m') == Universe(m) + {f}
  {
    var m' := m.(pt := m.pt[page := Pte(f, flags)]);
    assert Owned(m') by {
      hide UserFrames, TableFrames;
    }
    hide Owned, Unowned;
    assert UserFrames(m') == UserFrames(m) + {f} by {
      assert m'.pt[page].frame == f;
      assert forall p | p in m.pt :: p in m'.pt && m'.pt[p] == m.pt[p];
    }
    assert TableFrames(m') == TableFrames(m);
  }

  lemma PlaceInLost(m: Mem, f: nat)
    requires Owned(m) && Unowned(m, f)
    ensures var m' := m.(lost := m.lost + {f});
            Owned(m') && Universe(m') == Universe(m) + {f} && |m'.lost| == |m.lost| + 1
  {
    var m' := m.(lost := m.lost + {f});
    assert Owned(m') by {
      hide UserFrames, TableFrames;
    }
    assert f !in m.lost;
    hide Owned, Unowned;
    assert UserFrames(m') == UserFrames(m) && TableFrames(m') == TableFrames(m);
  }

  /** Unmapping frees the page's frame and no frame that any other page still uses. */
  lemma UnmapFreeKeeps(m: Mem, page: nat)
    requires Owned(m)
    ensures var m' := UnmapFree(m, page);
            && Balanced(m, m')
            && m'.pt == m.pt - {page} && m'.tables == m.tables && m'.lost == m.lost
            && m'.free == m.free + (if page in m.pt then {m.pt[page].frame} else {})
  {
    if page in m.pt {
      var m' := UnmapFree(m, page);
      assert Owned(m') by {
        hide UserFrames, TableFrames;
      }
      assert 0 < m.pt[page].frame < FRAME_BITMAP_BITS;
      hide Owned;
      assert UserFrames(m) == UserFrames(m') + {m.pt[page].frame} by {
        assert forall p | p in m.pt && p != page :: p in m'.pt && m'.pt[p] == m.pt[p];
      }
      assert TableFrames(m') == TableFrames(m);
    } else {
      assert m.pt - {page} == m.pt;
    }
  }

  /** The tables of levels 1 to `level` that a page needs. */
  ghost function Levels(page: nat, level: nat): set<TableId>
    requires level <= 3
  {
    if level == 0 then {} else Levels(page, level - 1) + {TableFor(page, level)}
  }

  ghost function Path(page: nat): set<TableId> {
    Levels(page, 3)
  }

  /** The tables of the page's path that do not exist yet. */
  ghost function Absent(m: Mem, page: nat): set<TableId> {
    Path(page) - m.tables.Keys
  }

  lemma EnsureTableExactly(m: Mem, id: TableId)
    ensures var (m', ok) := EnsureTable(m, id);
            && (ok <==> id in m.tables || |m.free| > 0)
            && (ok ==> m'.tables.Keys == m.tables.Keys + {id}
                       && |m'.free| == |m.free| - (if id in m.tables then 0 else 1))
  {
    if id in m.tables {
      assert m.tables.Keys == m.tables.Keys + {id};
    }
  }

  /** Two ways to count what is missing from `keys`: all at once, or one part after the other. */
  lemma MissingInTwo<T>(keys: set<T>, a: set<T>, b: set<T>)
    ensures |(a + b) - keys| == |b - keys| + |a - (keys + b)|
  {
    assert (a + b) - keys == (b - keys) + (a - (keys + b));
    assert (b - keys) !! (a - (keys + b));
  }

  /** How many of the page's tables of levels 1 to `level` are not among `keys`. */
  ghost function AbsentTo(keys: set<TableId>, page: nat, level: nat): nat
    requires level <= 3
  {
    |Levels(page, level) - keys|
  }

  ghost function WithLevels(keys: set<TableId>, page: nat, level: nat): set<TableId>
    requires level <= 3
  {
    keys + Levels(page, level)
  }

  lemma NextLevel(keys: set<TableId>, page: nat, level: nat)
    requires level <= 3
    ensures level == 0 ==> AbsentTo(keys, page, level) == 0 && WithLevels(keys, page, level) == keys
    ensures level > 0 ==>
              var id := TableFor(page, level);
              && AbsentTo(keys, page, level)
                 == (if id in keys then 0 else 1) + AbsentTo(keys + {id}, page, level - 1)
              && WithLevels(keys, page, level) == WithLevels(keys + {id}, page, level - 1)
  {
    if level == 0 {
      assert {} - keys == {} && keys + {} == keys;
    } else {
      var id := TableFor(page, level);
      MissingInTwo(keys, Levels(page, level - 1), {id});
      assert {id} - keys == if id in keys then {} else {id};
      assert WithLevels(keys, page, level) == WithLevels(keys + {id}, page, level - 1);
    }
  }

  /** The walk succeeds exactly when the pool covers the missing levels, and takes one frame for each. */
  lemma {:induction false} EnsureTablesExactly(m: Mem, page: nat, level: nat)
    requires level <= 3
    ensures var (m', ok) := EnsureTables(m, page, level);
            var absent := AbsentTo(m.tables.Keys, page, level);
            && (ok <==> absent <= |m.free|)
            && (ok ==> m'.tables.Keys == WithLevels(m.tables.Keys, page, level) && |m'.free| == |m.free| - absent)
    decreases level
  {
    hide EnsureTable, TableFor, AbsentTo, WithLevels;
    NextLevel(m.tables.Keys, page, level);
    if level > 0 {
      var id := TableFor(page, level);
      var (m1, ok) := EnsureTable(m, id);
      EnsureTableExactly(m, id);
      if ok {
        EnsureTablesExactly(m1, page, level - 1);
      }
    }
  }

  /** Pages of one 2 MiB region share all their tables. */
  lemma NeighbourTables(page: nat, other: nat)
    requires other / 512 == page / 512
    ensures Path(other) == Path(page)
  {
    assert other / 0x40000 == other / 512 / 512 && page / 0x40000 == page / 512 / 512;
    assert other / 0x8000000 == other / 0x40000 / 512 && page / 0x8000000 == page / 0x40000 / 512;
    assert TableFor(other, 1) == TableFor(page, 1);
    assert TableFor(other, 2) == TableFor(page, 2);
    assert TableFor(other, 3) == TableFor(page, 3);
    assert Levels(other, 1) == Levels(page, 1);
    assert Levels(other, 2) == Levels(page, 2);
  }

  /** A mapping succeeds exactly when the page is unmapped and the pool has a frame for it and for each missing table
      of its path. It takes exactly these, starting with the lowest, and leaves the whole path in place. */
  lemma AllocAndMapExactly(m: Mem, page: nat, flags: Flags)
    ensures var (m', r) := AllocAndMap(m, page, flags);
            && (r == Mapped <==> page !in m.pt && |Absent(m, page)| < |m.free|)
            && (r == Mapped ==> m'.tables.Keys == m.tables.Keys + Path(page)
                                && m'.free <= m.free - {Lowest(m.free)}
                                && |m'.free| == |m.free| - 1 - |Absent(m, page)|)
  {
    if m.free != {} {
      var m0 := m.(free := m.free - {Lowest(m.free)});
      hide EnsureTables, Levels;
      EnsureTablesExactly(m0, page, 3);
      EnsureTablesFrame(m0, page, 3);
    }
  }

  predicate InRange(p: nat, first: nat, n: nat) {
    first <= p < first + n
  }

  lemma {:induction false} EnsureTablesFails(m: Mem, page: nat, level: nat)
    requires level <= 3 && !EnsureTables(m, page, level).1
    ensures EnsureTables(m, page, level).0.free == {}
    decreases level
  {
    var (m1, ok) := EnsureTable(m, TableFor(page, level));
    if ok {
      EnsureTablesFails(m1, page, level - 1);
    }
  }

  lemma AllocAndMapFailure(m: Mem, page: nat, flags: Flags)
    requires AllocAndMap(m, page, flags).1 != Mapped
    ensures AllocAndMap(m, page, flags).0.free == {} || page in m.pt
  {
    if m.free != {} {
      var m0 := m.(free := m.free - {Lowest(m.free)});
      EnsureTablesFrame(m0, page, 3);
      if !EnsureTables(m0, page, 3).1 {
        EnsureTablesFails(m0, page, 3);
      }
    }
  }

  /** A range mapping fails only when the pool is exhausted or, without `skip`, some page was mapped already. */
  lemma {:induction false} MapRangeFailure(m: Mem, first: nat, n: nat, flags: Flags, skip: bool)
    requires MapRange(m, first, n, flags, skip).1 != Mapped
    ensures || MapRange(m, first, n, flags, skip).0.free == {}
            || (!skip && exists p :: InRange(p, first, n) && p in m.pt)
    decreases n
  {
    hide AllocAndMap;
    if skip && first in m.pt {
      MapRangeFailure(m, first + 1, n - 1, flags, skip);
    } else {
      var (m1, r) := AllocAndMap(m, first, flags);
      assert InRange(first, first, n);
      if r == Mapped {
        AllocAndMapPages(m, first, flags);
        MapRangeFailure(m1, first + 1, n - 1, flags, skip);
        assert forall p :: InRange(p, first + 1, n - 1) ==> InRange(p, first, n) && p != first;
      } else {
        AllocAndMapFailure(m, first, flags);
      }
    }
  }

  /** How many tables of the page's path are missing, from level `top` down to level `bottom`. */
  ghost function AbsentDown(keys: set<TableId>, page: nat, top: nat, bottom: nat): nat
    requires 1 <= bottom && top <= 3
    decreases top
  {
    if top < bottom then 0
    else (if TableFor(page, top) in keys then 0 else 1) + AbsentDown(keys, page, top - 1, bottom)
  }

  /** The tables of the page down to `bottom` exist, or there were frames for those that did not. */
  ghost predicate MadeDown(m: Mem, page: nat, top: nat, m': Mem) {
    forall bottom | 1 <= bottom <= top <= 3 ::
      TableFor(page, bottom) in m'.tables <==>
      TableFor(page, bottom) in m.tables || AbsentDown(m.tables.Keys, page, top, bottom) <= |m.free|
  }

  /** A mapping that fails: without a free frame it does nothing at all. Otherwise the lowest frame is lost, no page
      changes, and the missing tables are made from the top down as far as the other frames go. */
  lemma AllocAndMapFails(m: Mem, page: nat, flags: Flags)
    ensures var (m', r) := AllocAndMap(m, page, flags);
            && (r == NoFrame <==> m.free == {}) && (r == NoFrame ==> m' == m)
            && (r == MapFailed <==> m.free != {} && (page in m.pt || |m.free| <= |Absent(m, page)|))
            && (r == MapFailed ==>
                  && m'.pt == m.pt && m'.lost == m.lost + {Lowest(m.free)}
                  && MadeDown(m.(free := m.free - {Lowest(m.free)}), page, 3, m')
                  && forall t | t in m'.tables && t !in m.tables :: t in Path(page))
  {
    AllocAndMapExactly(m, page, flags);
    if m.free != {} {
      hide EnsureTables, MadeDown, Absent, Path;
      var m0 := m.(free := m.free - {Lowest(m.free)});
      EnsureTablesFrame(m0, page, 3);
      TablesFromTop(m0, page, 3);
      var m1 := EnsureTables(m0, page, 3).0;
      SameTables(m0, page, m1, AllocAndMap(m, page, flags).0);
    }
  }

  lemma SameTables(m: Mem, page: nat, m1: Mem, m2: Mem)
    requires MadeDown(m, page, 3, m1) && m2.tables == m1.tables
    ensures MadeDown(m, page, 3, m2)
  {
  }

  lemma {:induction false} TablesFromTop(m: Mem, page: nat, top: nat)
    requires top <= 3
    ensures var m' := EnsureTables(m, page, top).0;
            MadeDown(m, page, top, m') && forall t | t in m'.tables && t !in m.tables :: t in Levels(page, top)
    decreases top
  {
    if top == 0 {
      NoLevels(m, page);
    } else {
      var id := TableFor(page, top);
      var (m1, ok) := EnsureTable(m, id);
      var m' := EnsureTables(m, page, top).0;
      assert m' == if ok then EnsureTables(m1, page, top - 1).0 else m1;
      EnsureTableExactly(m, id);
      assert !ok ==> m1 == m && m.free == {} && id !in m.tables;
      hide EnsureTable, EnsureTables, MadeDown;
      if ok {
        TablesFromTop(m1, page, top - 1);
        EnsureTablesFrame(m1, page, top - 1);
        MadeNext(m, m1, m', page, top);
      } else {
        NoneMade(m, page, top);
      }
    }
  }

  lemma NoLevels(m: Mem, page: nat)
    ensures MadeDown(m, page, 0, m)
  {
  }

  lemma NoneMade(m: Mem, page: nat, top: nat)
    requires 1 <= top <= 3 && m.free == {} && TableFor(page, top) !in m.tables
    ensures MadeDown(m, page, top, m)
  {
    hide TableFor;
    assert forall l | 1 <= l <= top :: AbsentDown(m.tables.Keys, page, top, l) > 0;
  }

  lemma MadeNext(m: Mem, m1: Mem, m': Mem, page: nat, top: nat)
    requires 1 <= top <= 3 && MadeDown(m1, page, top - 1, m') && TablesKept(m1, m')
    requires m1.tables.Keys == m.tables.Keys + {TableFor(page, top)}
    requires |m1.free| == |m.free| - (if TableFor(page, top) in m.tables then 0 else 1)
    ensures MadeDown(m, page, top, m')
  {
    var id := TableFor(page, top);
    assert id in m1.tables.Keys && id in m'.tables;
    assert forall l | 1 <= l < top :: TableFor(page, l) != id;
    hide TableFor;
    forall bottom | 1 <= bottom <= top
      ensures TableFor(page, bottom) in m'.tables <==>
              TableFor(page, bottom) in m.tables || AbsentDown(m.tables.Keys, page, top, bottom) <= |m.free|
    {
      if bottom < top {
        SameBelow(m.tables.Keys, m1.tables.Keys, page, top - 1, bottom);
      } else {
        assert AbsentDown(m.tables.Keys, page, top - 1, top) == 0;
      }
    }
  }

  lemma {:induction false} SameBelow(a: set<TableId>, b: set<TableId>, page: nat, top: nat, bottom: nat)
    requires 1 <= bottom && top <= 3 && forall l | 1 <= l <= top :: TableFor(page, l) in a <==> TableFor(page, l) in b
    ensures AbsentDown(a, page, top, bottom) == AbsentDown(b, page, top, bottom)
    decreases top
  {
    if bottom <= top {
      SameBelow(a, b, page, top - 1, bottom);
    }
  }

  /** A page loop is its first part and then, if that succeeds, the rest; a loop over one page is a single mapping, or
      nothing where a mapped page is passed over. */
  lemma {:induction false} MapRangeSplits(m: Mem, first: nat, a: nat, b: nat, flags: Flags, skip: bool)
    ensures var (m1, r1) := MapRange(m, first, a, flags, skip);
            MapRange(m, first, a + b, flags, skip) ==
            if r1 == Mapped then MapRange(m1, first + a, b, flags, skip) else (m1, r1)
    ensures MapRange(m, first, 0, flags, skip) == (m, Mapped)
    ensures MapRange(m, first, 1, flags, skip) ==
            if skip && first in m.pt then (m, Mapped) else AllocAndMap(m, first, flags)
    decreases a
  {
    hide AllocAndMap;
    var m1, r1 := AllocAndMap(m, first, flags).0, AllocAndMap(m, first, flags).1;
    assert MapRange(m1, first + 1, 0, flags, skip) == (m1, Mapped);
    if a > 0 {
      if skip && first in m.pt {
        MapRangeSplits(m, first + 1, a - 1, b, flags, skip);
      } else if r1 == Mapped {
        MapRangeSplits(m1, first + 1, a - 1, b, flags, skip);
      }
    }
  }

  /** The pages of a range that a skipping loop still has to map. */
  ghost function Missing(pt: map<nat, Pte>, first: nat, n: nat): set<nat> {
    set p | first <= p < first + n && p !in pt
  }

  /** The tables that some of the pages need. */
  ghost function TablesOf(pages: set<nat>): set<TableId> {
    set p, t | p in pages && t in Path(p) :: t
  }

  /** The frames it takes to map the pages: one each, and one for every table that is missing. */
  ghost function Demand(m: Mem, pages: set<nat>): nat {
    |pages| + |TablesOf(pages) - m.tables.Keys|
  }

  /** Where a page loop first tries to map: at the first page, or with `skip` at the first unmapped one. */
  ghost function FirstTry(pt: map<nat, Pte>, first: nat, n: nat, skip: bool): nat
    decreases n
  {
    if n > 0 && skip && first in pt then FirstTry(pt, first + 1, n - 1, skip) else first
  }

  lemma MissingNext(pt: map<nat, Pte>, first: nat, n: nat)
    requires n > 0
    ensures first in pt ==> Missing(pt, first, n) == Missing(pt, first + 1, n - 1)
    ensures first !in pt ==> |Missing(pt, first, n)| == |Missing(pt, first + 1, n - 1)| + 1
  {
    if first !in pt {
      assert Missing(pt, first, n) == Missing(pt, first + 1, n - 1) + {first};
    }
  }

  /** After mapping `first`, what the pages above it still demand is what is left of the whole demand. */
  lemma DemandNext(m: Mem, m1: Mem, first: nat, n: nat)
    requires n > 0 && first !in m.pt && first in m1.pt && m1.pt == m.pt[first := m1.pt[first]]
    requires m1.tables.Keys == m.tables.Keys + Path(first)
    ensures Demand(m, Missing(m.pt, first, n))
            == 1 + |Absent(m, first)| + Demand(m1, Missing(m1.pt, first + 1, n - 1))
  {
    hide Path, TablesOf, Missing;
    var rest := Missing(m1.pt, first + 1, n - 1);
    MissingFirst(m.pt, m1.pt, first, n);
    TablesOfMore(rest, first);
    MissingInTwo(m.tables.Keys, TablesOf(rest), Path(first));
  }

  lemma MissingFirst(pt: map<nat, Pte>, pt1: map<nat, Pte>, first: nat, n: nat)
    requires n > 0 && first !in pt && first in pt1 && pt1 == pt[first := pt1[first]]
    ensures var rest := Missing(pt1, first + 1, n - 1); first !in rest && Missing(pt, first, n) == rest + {first}
  {
  }

  lemma TablesOfMore(pages: set<nat>, page: nat)
    ensures TablesOf(pages + {page}) == TablesOf(pages) + Path(page)
  {
    hide Path;
  }

  lemma NoDemand(m: Mem, first: nat)
    ensures Demand(m, Missing(m.pt, first, 0)) == 0 && TablesOf(Missing(m.pt, first, 0)) == {}
  {
    assert Missing(m.pt, first, 0) == {} && TablesOf({}) == {};
  }

  /** Exactly when a range can be mapped: enough free frames for the missing pages and the missing tables above
      them and, without `skip`, no page mapped already. A loop that fails has mapped something exactly when its first
      attempt could succeed. */
  lemma {:induction false} MapRangeExactly(m: Mem, first: nat, n: nat, flags: Flags, skip: bool)
    ensures var (m', r) := MapRange(m, first, n, flags, skip);
            var q := FirstTry(m.pt, first, n, skip);
            && (r == Mapped <==>
                  && Demand(m, Missing(m.pt, first, n)) <= |m.free|
                  && (skip || forall p | InRange(p, first, n) :: p !in m.pt))
            && (r != Mapped ==> (m'.pt != m.pt <==> q !in m.pt && |Absent(m, q)| < |m.free|))
    decreases n
  {
    hide AllocAndMap, Missing, Absent, Demand;
    if n == 0 {
      NoDemand(m, first);
    } else {
      assert InRange(first, first, n);
      assert forall p: nat :: InRange(p, first, n) <==> p == first || InRange(p, first + 1, n - 1);
      if skip && first in m.pt {
        MissingNext(m.pt, first, n);
        MapRangeExactly(m, first + 1, n - 1, flags, skip);
      } else {
        var (m1, r) := AllocAndMap(m, first, flags);
        AllocAndMapExactly(m, first, flags);
        AllocAndMapPages(m, first, flags);
        if r == Mapped {
          DemandNext(m, m1, first, n);
          MapRangeExactly(m1, first + 1, n - 1, flags, skip);
          MapRangePages(m1, first + 1, n - 1, flags, skip);
        } else if first !in m.pt {
          AtLeastFirst(m, first, n);
        }
      }
    }
  }

  /** The demand covers at least the first page and its tables. */
  lemma AtLeastFirst(m: Mem, first: nat, n: nat)
    requires n > 0 && first !in m.pt
    ensures Demand(m, Missing(m.pt, first, n)) > |Absent(m, first)|
  {
    hide Path;
    var pages := Missing(m.pt, first, n);
    assert first in pages && |pages| > 0;
    assert Absent(m, first) <= TablesOf(pages) - m.tables.Keys;
    SubsetSize(Absent(m, first), TablesOf(pages) - m.tables.Keys);
  }

  lemma SubsetSize<T>(a: set<T>, b: set<T>)
    requires a <= b
    ensures |a| <= |b|
  {
    assert b == a + (b - a);
  }

  /** Within one 2 MiB region the missing tables are those of any one page. */
  lemma DemandInRegion(m: Mem, pages: set<nat>, page: nat)
    requires forall p | p in pages :: p / 512 == page / 512
    ensures Demand(m, pages) == if pages == {} then 0 else |pages| + |Absent(m, page)|
  {
    hide Path;
    forall p | p in pages ensures Path(p) == Path(page) {
      NeighbourTables(page, p);
    }
    if pages != {} {
      var p :| p in pages;
      assert TablesOf(pages) == Path(page);
    }
  }

  /** What a successful loop takes from the pool and adds to the tables. */
  lemma {:induction false} MapRangeTakes(m: Mem, first: nat, n: nat, flags: Flags, skip: bool)
    requires MapRange(m, first, n, flags, skip).1 == Mapped
    ensures var m' := MapRange(m, first, n, flags, skip).0;
            var pages := Missing(m.pt, first, n);
            && m'.tables.Keys == m.tables.Keys + TablesOf(pages)
            && |m'.free| == |m.free| - Demand(m, pages)
    decreases n
  {
    hide AllocAndMap, Missing, Absent, Demand, TablesOf;
    if n == 0 {
      NoDemand(m, first);
      assert m.tables.Keys + {} == m.tables.Keys;
    } else if skip && first in m.pt {
      MissingNext(m.pt, first, n);
      MapRangeTakes(m, first + 1, n - 1, flags, skip);
    } else {
      var m1 := AllocAndMap(m, first, flags).0;
      AllocAndMapExactly(m, first, flags);
      AllocAndMapPages(m, first, flags);
      DemandNext(m, m1, first, n);
      MapRangeTakes(m1, first + 1, n - 1, flags, skip);
      MissingFirst(m.pt, m1.pt, first, n);
      TablesOfMore(Missing(m1.pt, first + 1, n - 1), first);
    }
  }

  /** A loop has reached page p of its range exactly when the loop that ends at p succeeds. */
  lemma {:induction false} PrefixMapped(m: Mem, first: nat, n: nat, flags: Flags, skip: bool, p: nat)
    requires InRange(p, first, n)
    ensures p in MapRange(m, first, n, flags, skip).0.pt <==>
            p in m.pt || MapRange(m, first, p - first + 1, flags, skip).1 == Mapped
    decreases n
  {
    hide AllocAndMap;
    var j := p - first;
    if skip && first in m.pt {
      MapRangePages(m, first, n, flags, skip);
      if j > 0 {
        PrefixMapped(m, first + 1, n - 1, flags, skip, p);
        assert MapRange(m, first, j + 1, flags, skip) == MapRange(m, first + 1, j, flags, skip);
      }
    } else {
      var (m1, r) := AllocAndMap(m, first, flags);
      AllocAndMapPages(m, first, flags);
      if r == Mapped {
        assert MapRange(m, first, j + 1, flags, skip) == MapRange(m1, first + 1, j, flags, skip);
        MapRangePages(m1, first + 1, n - 1, flags, skip);
        if j > 0 {
          PrefixMapped(m1, first + 1, n - 1, flags, skip, p);
        }
      }
    }
  }

  /** Mapping one set of pages after another demands what mapping both at once does. */
  lemma DemandSplit(m: Mem, m1: Mem, a: set<nat>, b: set<nat>)
    requires a !! b && m1.tables.Keys == m.tables.Keys + TablesOf(a)
    ensures Demand(m, a + b) == Demand(m, a) + Demand(m1, b)
  {
    TablesOfUnion(a, b);
    hide TablesOf;
    MissingInTwo(m.tables.Keys, TablesOf(b), TablesOf(a));
    assert TablesOf(a + b) == TablesOf(b) + TablesOf(a);
    assert |a + b| == |a| + |b|;
  }

  lemma TablesOfUnion(a: set<nat>, b: set<nat>)
    ensures TablesOf(a + b) == TablesOf(a) + TablesOf(b)
  {
    hide Path;
  }

  /** More pages demand no less. */
  lemma DemandMonotone(m: Mem, a: set<nat>, b: set<nat>)
    requires a <= b
    ensures Demand(m, a) <= Demand(m, b)
  {
    assert b == a + (b - a);
    TablesOfUnion(a, b - a);
    hide TablesOf;
    SubsetSize(a, b);
    SubsetSize(TablesOf(a) - m.tables.Keys, TablesOf(b) - m.tables.Keys);
  }

  lemma {:induction false} MissingAll(pt: map<nat, Pte>, first: nat, n: nat)
    requires forall p | InRange(p, first, n) :: p !in pt
    ensures |Missing(pt, first, n)| == n
    decreases n
  {
    if n == 0 {
      assert Missing(pt, first, 0) == {};
    } else {
      MissingNext(pt, first, n);
      assert InRange(first, first, n);
      assert forall p | InRange(p, first + 1, n - 1) :: InRange(p, first, n);
      MissingAll(pt, first + 1, n - 1);
    }
  }

  /** The first attempt lies in the range, at an unmapped page if there is one. */
  lemma {:induction false} FirstTryIn(pt: map<nat, Pte>, first: nat, n: nat)
    requires Missing(pt, first, n) != {}
    ensures InRange(FirstTry(pt, first, n, true), first, n) && FirstTry(pt, first, n, true) !in pt
    decreases n
  {
    if first in pt {
      assert n > 0;
      MissingNext(pt, first, n);
      FirstTryIn(pt, first + 1, n - 1);
    }
  }

  /** Every range mapping, successful or stopped halfway, keeps ownership and the frames in play. */
  lemma {:induction false} MapRangeKeeps(m: Mem, first: nat, n: nat, flags: Flags, skip: bool)
    requires Owned(m)
    ensures var (m', r) := MapRange(m, first, n, flags, skip);
            && Balanced(m, m')
            && |m'.lost| == |m.lost| + (if r == MapFailed then 1 else 0)
    decreases n
  {
    hide Owned, Universe, AllocAndMap;
    if n > 0 {
      if skip && first in m.pt {
        MapRangeKeeps(m, first + 1, n - 1, flags, skip);
      } else {
        AllocAndMapKeeps(m, first, flags);
        var (m1, r) := AllocAndMap(m, first, flags);
        if r == Mapped {
          MapRangeKeeps(m1, first + 1, n - 1, flags, skip);
        }
      }
    }
  }

  /** What a range mapping does to the page table, successful or stopped halfway. */
  ghost predicate RangeMapped(m: Mem, first: nat, n: nat, flags: Flags, skip: bool, m': Mem, r: MapResult) {
    && (forall p | p in m.pt :: p in m'.pt && m'.pt[p] == m.pt[p])
    && (forall p | p in m'.pt && p !in m.pt ::
          InRange(p, first, n) && m'.pt[p].flags == flags && m'.pt[p].frame in m.free)
    && (r == Mapped ==> forall p | InRange(p, first, n) :: p in m'.pt)
    && (r == Mapped && !skip ==> forall p | InRange(p, first, n) :: p !in m.pt)
    && m'.free <= m.free && m.lost <= m'.lost && TablesKept(m, m')
    && (r != MapFailed ==> m'.lost == m.lost)
  }

  lemma {:induction false} MapRangePages(m: Mem, first: nat, n: nat, flags: Flags, skip: bool)
    ensures var (m', r) := MapRange(m, first, n, flags, skip);
            RangeMapped(m, first, n, flags, skip, m', r)
    decreases n
  {
    hide AllocAndMap;
    if n > 0 {
      if skip && first in m.pt {
        MapRangePages(m, first + 1, n - 1, flags, skip);
      } else {
        AllocAndMapPages(m, first, flags);
        var (m1, r) := AllocAndMap(m, first, flags);
        if r == Mapped {
          MapRangePages(m1, first + 1, n - 1, flags, skip);
        }
      }
    }
  }

  /** Every mapped page has all its tables. */
  ghost predicate Rooted(m: Mem) {
    forall p | p in m.pt :: Path(p) <= m.tables.Keys
  }

  lemma AllocAndMapRooted(m: Mem, page: nat, flags: Flags)
    requires Rooted(m)
    ensures Rooted(AllocAndMap(m, page, flags).0)
  {
    hide AllocAndMap, Path;
    AllocAndMapExactly(m, page, flags);
    AllocAndMapPages(m, page, flags);
  }

  lemma {:induction false} MapRangeRooted(m: Mem, first: nat, n: nat, flags: Flags, skip: bool)
    requires Rooted(m)
    ensures Rooted(MapRange(m, first, n, flags, skip).0)
    decreases n
  {
    hide AllocAndMap, Rooted;
    if n > 0 {
      if skip && first in m.pt {
        MapRangeRooted(m, first + 1, n - 1, flags, skip);
      } else {
        AllocAndMapRooted(m, first, flags);
        if AllocAndMap(m, first, flags).1 == Mapped {
          MapRangeRooted(AllocAndMap(m, first, flags).0, first + 1, n - 1, flags, skip);
        }
      }
    }
  }

  lemma {:induction false} UnmapRangeRooted(m: Mem, first: nat, n: nat)
    requires Rooted(m)
    ensures Rooted(UnmapRange(m, first, n))
    decreases n
  {
    hide Path;
    if n > 0 {
      UnmapRangeRooted(UnmapFree(m, first), first + 1, n - 1);
    }
  }

  lemma {:induction false} UnmapRangeKeeps(m: Mem, first: nat, n: nat)
    requires Owned(m)
    ensures Balanced(m, UnmapRange(m, first, n))
    decreases n
  {
    if n > 0 {
      UnmapFreeKeeps(m, first);
      UnmapRangeKeeps(UnmapFree(m, first), first + 1, n - 1);
    }
  }

  /** Unmapping a range removes exactly its pages and frees exactly their frames. */
  lemma {:induction false} UnmapRangePages(m: Mem, first: nat, n: nat)
    requires Owned(m)
    ensures var m' := UnmapRange(m, first, n);
            && m'.pt == (map p | p in m.pt && !InRange(p, first, n) :: m.pt[p])
            && m'.tables == m.tables && m'.lost == m.lost
            && m'.free == m.free + FramesIn(m.pt, first, n)
    decreases n
  {
    hide Owned, Universe, UnmapFree, FramesIn;
    FramesInStep(m.pt, first, n);
    if n > 0 {
      UnmapFreeKeeps(m, first);
      var m1 := UnmapFree(m, first);
      UnmapRangePages(m1, first + 1, n - 1);
      assert forall p :: InRange(p, first, n) <==> p == first || InRange(p, first + 1, n - 1);
    }
  }

  ghost function FramesIn(pt: map<nat, Pte>, first: nat, n: nat): set<nat> {
    set p | p in pt && InRange(p, first, n) :: pt[p].frame
  }

  lemma FramesInStep(pt: map<nat, Pte>, first: nat, n: nat)
    ensures n == 0 ==> FramesIn(pt, first, n) == {}
    ensures n > 0 ==>
              FramesIn(pt, first, n)
              == FramesIn(pt - {first}, first + 1, n - 1) + (if first in pt then {pt[first].frame} else {})
  {
    if n == 0 {
      return;
    }
    var rest := pt - {first};
    forall p | p in pt && InRange(p, first, n)
      ensures pt[p].frame in FramesIn(rest, first + 1, n - 1) + (if first in pt then {pt[first].frame} else {})
    {
      assert p != first ==> p in rest && InRange(p, first + 1, n - 1) && rest[p] == pt[p];
    }
    forall p | p in rest && InRange(p, first + 1, n - 1)
      ensures rest[p].frame in FramesIn(pt, first, n)
    {
      assert p in pt && InRange(p, first, n) && rest[p] == pt[p];
    }
    assert first in pt ==> InRange(first, first, n);
  }
}
