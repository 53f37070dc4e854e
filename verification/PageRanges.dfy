/**
 The page ranges of an image, mapped one after another as the segment loop of src/elf.rs does: what such a load does to
 the page table, and exactly when it succeeds and how far it gets.
 */
module PageRanges {
  import opened Paging

  datatype PageRange = PageRange(first: nat, pages: nat, flags: Flags)

  ghost function LoadRanges(m: Mem, ranges: seq<PageRange>): (Mem, MapResult)
    decreases |ranges|
  {
    if ranges == [] then (m, Mapped)
    else
      var (m1, r) := MapRange(m, ranges[0].first, ranges[0].pages, ranges[0].flags, false);
      if r == Mapped then LoadRanges(m1, ranges[1..]) else (m1, r)
  }

  /** The pages of a range keep out of [lo, hi). */
  predicate Avoids(r: PageRange, lo: nat, hi: nat) {
    r.pages == 0 || r.first + r.pages <= lo || hi <= r.first
  }

  // ----- what a load does -----

  lemma {:induction false} LoadRangesKeeps(m: Mem, ranges: seq<PageRange>)
    requires Owned(m)
    ensures var (m', r) := LoadRanges(m, ranges);
            Balanced(m, m') && |m'.lost| == |m.lost| + (if r == MapFailed then 1 else 0)
    decreases |ranges|
  {
    hide Owned, Universe, MapRange;
    if ranges != [] {
      MapRangeKeeps(m, ranges[0].first, ranges[0].pages, ranges[0].flags, false);
      var (m1, r) := MapRange(m, ranges[0].first, ranges[0].pages, ranges[0].flags, false);
      if r == Mapped {
        LoadRangesKeeps(m1, ranges[1..]);
      }
    }
  }

  ghost predicate InSome(ranges: seq<PageRange>, p: nat, flags: Flags) {
    exists r :: r in ranges && InRange(p, r.first, r.pages) && r.flags == flags
  }

  /** An image load keeps every mapping and adds only pages of its ranges, all of them if it succeeds. */
  ghost predicate ImageMapped(m: Mem, ranges: seq<PageRange>, m': Mem, r: MapResult) {
    && (forall p | p in m.pt :: p in m'.pt && m'.pt[p] == m.pt[p])
    && (forall p | p in m'.pt && p !in m.pt :: InSome(ranges, p, m'.pt[p].flags))
    && (r == Mapped ==> forall g, p | g in ranges && InRange(p, g.first, g.pages) ::
          p in m'.pt && p !in m.pt && m'.pt[p].flags == g.flags)
  }

  lemma {:induction false} LoadRangesPages(m: Mem, ranges: seq<PageRange>)
    ensures var (m', r) := LoadRanges(m, ranges); ImageMapped(m, ranges, m', r)
    decreases |ranges|
  {
    hide MapRange, LoadRanges, ImageMapped;
    LoadRangesStep(m, ranges);
    if ranges == [] {
      NothingLoaded(m);
    } else {
      var g := ranges[0];
      MapRangePages(m, g.first, g.pages, g.flags, false);
      var (m1, r) := MapRange(m, g.first, g.pages, g.flags, false);
      if r == Mapped {
        LoadRangesPages(m1, ranges[1..]);
      }
      ImageMappedStep(m, ranges, m1, r, LoadRanges(m1, ranges[1..]).0, LoadRanges(m1, ranges[1..]).1);
    }
  }

  lemma LoadRangesStep(m: Mem, ranges: seq<PageRange>)
    ensures ranges == [] ==> LoadRanges(m, ranges) == (m, Mapped)
    ensures ranges != [] ==>
              var (m1, r) := MapRange(m, ranges[0].first, ranges[0].pages, ranges[0].flags, false);
              LoadRanges(m, ranges) == if r == Mapped then LoadRanges(m1, ranges[1..]) else (m1, r)
  {
    hide MapRange;
  }

  lemma NothingLoaded(m: Mem)
    ensures ImageMapped(m, [], m, Mapped)
  {
  }

  lemma ImageMappedStep(m: Mem, ranges: seq<PageRange>, m1: Mem, r1: MapResult, m': Mem, r: MapResult)
    requires ranges != []
    requires RangeMapped(m, ranges[0].first, ranges[0].pages, ranges[0].flags, false, m1, r1)
    requires r1 == Mapped ==> ImageMapped(m1, ranges[1..], m', r)
    ensures if r1 == Mapped then ImageMapped(m, ranges, m', r) else ImageMapped(m, ranges, m1, r1)
  {
    var g := ranges[0];
    assert g in ranges && ranges == [g] + ranges[1..];
    forall p | p in m1.pt && p !in m.pt ensures InSome(ranges, p, m1.pt[p].flags) {
    }
    if r1 == Mapped {
      forall p | p in m'.pt && p !in m.pt ensures InSome(ranges, p, m'.pt[p].flags) {
        if p !in m1.pt {
          var h :| h in ranges[1..] && InRange(p, h.first, h.pages) && h.flags == m'.pt[p].flags;
          assert h in ranges;
        }
      }
    }
  }

  lemma {:induction false} LoadRangesRooted(m: Mem, ranges: seq<PageRange>)
    requires Rooted(m)
    ensures Rooted(LoadRanges(m, ranges).0)
    decreases |ranges|
  {
    hide MapRange, Rooted;
    if ranges != [] {
      var g := ranges[0];
      MapRangeRooted(m, g.first, g.pages, g.flags, false);
      LoadRangesRooted(MapRange(m, g.first, g.pages, g.flags, false).0, ranges[1..]);
    }
  }

  // ----- exactly when a load succeeds -----

  function Span(r: PageRange): set<nat> {
    set p: nat | p < r.first + r.pages && InRange(p, r.first, r.pages)
  }

  function PagesOf(ranges: seq<PageRange>): set<nat> {
    if ranges == [] then {} else Span(ranges[0]) + PagesOf(ranges[1..])
  }

  /** No page lies in two of the ranges. */
  predicate Apart(ranges: seq<PageRange>) {
    ranges != [] ==> Span(ranges[0]) !! PagesOf(ranges[1..]) && Apart(ranges[1..])
  }

  /** The ranges can be mapped: no page twice, no page mapped already, and frames for all pages and missing tables. */
  ghost predicate LoadFits(m: Mem, ranges: seq<PageRange>) {
    && Apart(ranges)
    && PagesOf(ranges) !! m.pt.Keys
    && Demand(m, PagesOf(ranges)) <= |m.free|
  }

  lemma {:induction false} InPagesOf(ranges: seq<PageRange>, p: nat)
    ensures p in PagesOf(ranges) <==> exists r :: r in ranges && InRange(p, r.first, r.pages)
    decreases |ranges|
  {
    if ranges != [] {
      InPagesOf(ranges[1..], p);
      assert ranges == [ranges[0]] + ranges[1..];
    }
  }

  /** One range: the load fits exactly when its page loop succeeds, and then takes exactly its demand. */
  lemma SpanExactly(m: Mem, g: PageRange)
    ensures var (m', r) := MapRange(m, g.first, g.pages, g.flags, false);
            && (r == Mapped <==> Span(g) !! m.pt.Keys && Demand(m, Span(g)) <= |m.free|)
            && (r == Mapped ==> m'.tables.Keys == m.tables.Keys + TablesOf(Span(g))
                                && |m'.free| == |m.free| - Demand(m, Span(g))
                                && m'.pt.Keys == m.pt.Keys + Span(g))
  {
    hide MapRange, Demand, TablesOf, Span, Missing, RangeMapped;
    MapRangeExactly(m, g.first, g.pages, g.flags, false);
    SpanFree(m, g);
    if MapRange(m, g.first, g.pages, g.flags, false).1 == Mapped {
      MapRangeTakes(m, g.first, g.pages, g.flags, false);
      SpanMapped(m, g);
    }
  }

  lemma SpanFree(m: Mem, g: PageRange)
    ensures (forall p | InRange(p, g.first, g.pages) :: p !in m.pt) <==> Span(g) !! m.pt.Keys
    ensures Span(g) !! m.pt.Keys ==> Missing(m.pt, g.first, g.pages) == Span(g)
  {
    assert forall p: nat :: p in Span(g) <==> InRange(p, g.first, g.pages);
  }

  lemma SpanMapped(m: Mem, g: PageRange)
    requires MapRange(m, g.first, g.pages, g.flags, false).1 == Mapped
    ensures MapRange(m, g.first, g.pages, g.flags, false).0.pt.Keys == m.pt.Keys + Span(g)
  {
    hide MapRange;
    MapRangePages(m, g.first, g.pages, g.flags, false);
    assert forall p: nat :: p in Span(g) <==> InRange(p, g.first, g.pages);
  }

  /** A load succeeds if and only if it fits. */
  lemma {:induction false} LoadRangesExactly(m: Mem, ranges: seq<PageRange>)
    ensures LoadRanges(m, ranges).1 == Mapped <==> LoadFits(m, ranges)
    decreases |ranges|
  {
    hide MapRange, Demand, TablesOf, Span;
    if ranges == [] {
      EmptyFits(m);
    } else {
      var g, rest := ranges[0], ranges[1..];
      SpanExactly(m, g);
      var (m1, r) := MapRange(m, g.first, g.pages, g.flags, false);
      if r == Mapped {
        LoadRangesExactly(m1, rest);
        if Span(g) !! PagesOf(rest) {
          DemandSplit(m, m1, Span(g), PagesOf(rest));
        }
      } else {
        DemandMonotone(m, Span(g), PagesOf(ranges));
      }
    }
  }

  lemma EmptyFits(m: Mem)
    ensures LoadFits(m, []) && LoadRanges(m, []) == (m, Mapped)
  {
    assert TablesOf({}) == {};
  }

  /** What a successful load adds to the page table. */
  lemma {:induction false} LoadRangesKeys(m: Mem, ranges: seq<PageRange>)
    requires LoadRanges(m, ranges).1 == Mapped
    ensures LoadRanges(m, ranges).0.pt.Keys == m.pt.Keys + PagesOf(ranges)
    decreases |ranges|
  {
    hide MapRange, Demand, TablesOf, Span;
    if ranges != [] {
      SpanExactly(m, ranges[0]);
      LoadRangesKeys(MapRange(m, ranges[0].first, ranges[0].pages, ranges[0].flags, false).0, ranges[1..]);
    }
  }

  /** A load is its beginning and then, if that succeeds, the rest; a load of one range is its page loop. */
  lemma {:induction false} LoadPrefix(m: Mem, a: seq<PageRange>, b: seq<PageRange>)
    ensures LoadRanges(m, a + b) == if LoadRanges(m, a).1 == Mapped then LoadRanges(LoadRanges(m, a).0, b)
                                    else LoadRanges(m, a)
    ensures LoadRanges(m, []) == (m, Mapped)
    ensures forall g :: LoadRanges(m, [g]) == MapRange(m, g.first, g.pages, g.flags, false)
    decreases |a|
  {
    hide MapRange;
    if a == [] {
      assert a + b == b;
    } else {
      var m1 := MapRange(m, a[0].first, a[0].pages, a[0].flags, false).0;
      assert (a + b)[1..] == a[1..] + b;
      LoadPrefix(m1, a[1..], b);
    }
  }

  // ----- how far a load gets -----

  /** The part of a load up to page p of range i. */
  function Upto(ranges: seq<PageRange>, i: nat, p: nat): seq<PageRange>
    requires i < |ranges| && InRange(p, ranges[i].first, ranges[i].pages)
  {
    ranges[..i] + [PageRange(ranges[i].first, p - ranges[i].first + 1, ranges[i].flags)]
  }

  /** The load gets to page p of range i: everything up to it fits. */
  ghost predicate Reaches(m: Mem, ranges: seq<PageRange>, i: nat, p: nat) {
    i < |ranges| && InRange(p, ranges[i].first, ranges[i].pages) && LoadFits(m, Upto(ranges, i, p))
  }

  lemma ReachesStep(m: Mem, ranges: seq<PageRange>, i: nat, p: nat)
    requires i < |ranges| && InRange(p, ranges[i].first, ranges[i].pages)
    ensures var g := ranges[0];
            var (m1, r) := MapRange(m, g.first, g.pages, g.flags, false);
            Reaches(m, ranges, i, p) <==>
            if i == 0 then MapRange(m, g.first, p - g.first + 1, g.flags, false).1 == Mapped
            else r == Mapped && Reaches(m1, ranges[1..], i - 1, p)
  {
    hide MapRange, LoadFits;
    var upto := Upto(ranges, i, p);
    LoadRangesExactly(m, upto);
    LoadRangesStep(m, upto);
    if i == 0 {
      LoadRangesStep(MapRange(m, ranges[0].first, p - ranges[0].first + 1, ranges[0].flags, false).0, upto[1..]);
    } else {
      assert upto[0] == ranges[0] && ranges[i] == ranges[1..][i - 1];
      assert upto[1..] == Upto(ranges[1..], i - 1, p);
      LoadRangesExactly(MapRange(m, ranges[0].first, ranges[0].pages, ranges[0].flags, false).0, upto[1..]);
    }
  }

  lemma FirstReached(m: Mem, g: PageRange, p: nat)
    requires InRange(p, g.first, g.pages)
    ensures var m1 := MapRange(m, g.first, g.pages, g.flags, false).0;
            MapRange(m, g.first, p - g.first + 1, g.flags, false).1 == Mapped <==> p in m1.pt && p !in m.pt
  {
    hide MapRange;
    PrefixMapped(m, g.first, g.pages, g.flags, false, p);
    MapRangePages(m, g.first, p - g.first + 1, g.flags, false);
    assert InRange(p, g.first, p - g.first + 1);
  }

  /** A load maps exactly the pages it gets to, with the flags of their range, whether it then stops or not. */
  lemma {:induction false} LoadReaches(m: Mem, ranges: seq<PageRange>, p: nat)
    ensures var m' := LoadRanges(m, ranges).0;
            && (p in m'.pt && p !in m.pt <==> exists i: nat :: Reaches(m, ranges, i, p))
            && (forall i: nat | Reaches(m, ranges, i, p) :: p in m'.pt && m'.pt[p].flags == ranges[i].flags)
    decreases |ranges|
  {
    hide MapRange, LoadFits, LoadRanges, Reaches;
    LoadRangesStep(m, ranges);
    assert forall i: nat | Reaches(m, ranges, i, p) :: i < |ranges| && InRange(p, ranges[i].first, ranges[i].pages) by {
      ReachesWhere(m, ranges, p);
    }
    if ranges != [] {
      var g, rest := ranges[0], ranges[1..];
      var (m1, r) := MapRange(m, g.first, g.pages, g.flags, false);
      MapRangePages(m, g.first, g.pages, g.flags, false);
      if r == Mapped {
        LoadReaches(m1, rest, p);
        LoadRangesPages(m1, rest);
      }
      if InRange(p, g.first, g.pages) {
        FirstReached(m, g, p);
      }
      forall i: nat | Reaches(m, ranges, i, p)
        ensures var m' := LoadRanges(m, ranges).0; p in m'.pt && p !in m.pt && m'.pt[p].flags == ranges[i].flags
      {
        ReachesStep(m, ranges, i, p);
        assert i > 0 ==> ranges[i] == rest[i - 1];
      }
      if p in LoadRanges(m, ranges).0.pt && p !in m.pt {
        if p in m1.pt {
          ReachesStep(m, ranges, 0, p);
        } else {
          var i: nat :| Reaches(m1, rest, i, p);
          ReachesWhere(m1, rest, p);
          assert ranges[i + 1] == rest[i];
          ReachesStep(m, ranges, i + 1, p);
        }
      }
    }
  }

  lemma ReachesWhere(m: Mem, ranges: seq<PageRange>, p: nat)
    ensures forall i: nat | Reaches(m, ranges, i, p) :: i < |ranges| && InRange(p, ranges[i].first, ranges[i].pages)
  {
    hide LoadFits;
  }
}
