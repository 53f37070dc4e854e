/**
 Exec replaces the image by the one that is running, since `/init` is the only path it knows (src/process.rs:582-611),
 and drops only the pages from the text base up (src/elf.rs:61-77). Here is exactly when that can succeed.
 */
module ReExec {
  import opened Basics
  import opened Paging
  import opened PageRanges
  import opened UserMemory
  import opened ProcessMemory
  import opened ElfLoader
  import opened ExecStack
  import opened PtrVec
  import opened Exec
  import opened Boot
  import opened SharedMemory

  const TEXT_PAGE: nat := PageOf(USER_TEXT_BASE)
  const STACK_PAGE: nat := PageOf(STACK_LO)

  ghost function ImagePagesOf(image: seq<byte>): set<nat>
    requires |image| >= 64
  {
    PagesOf(SegmentRanges(image, 0, Phnum(image)))
  }

  lemma {:induction false} PagesOfConcat(a: seq<PageRange>, b: seq<PageRange>)
    ensures PagesOf(a + b) == PagesOf(a) + PagesOf(b)
    decreases |a|
  {
    hide Span;
    if a == [] {
      assert a + b == b;
    } else {
      assert (a + b)[1..] == a[1..] + b;
      PagesOfConcat(a[1..], b);
    }
  }

  /** The pages of a loadable segment are pages of the image. */
  lemma {:induction false} SegmentInPages(image: seq<byte>, n: nat, i: nat)
    requires |image| >= 64 && LoadableAt(image, n, i)
    ensures Span(PhdrAt(image, i).Pages(0)) <= PagesOf(SegmentRanges(image, 0, n))
    decreases n
  {
    hide PhdrAt, PhdrInBounds, Span;
    var last := if LoadableAt(image, n, n - 1) then [PhdrAt(image, n - 1).Pages(0)] else [];
    PagesOfConcat(SegmentRanges(image, 0, n - 1), last);
    if i < n - 1 {
      SegmentInPages(image, n - 1, i);
    } else {
      assert last[1..] == [];
    }
  }

  /** A byte of the segment lies in one of its pages. */
  lemma ByteInSpan(h: Phdr, va: nat)
    requires h.memsz != 0 && h.Seg(0) <= va < h.Seg(0) + h.memsz
    ensures PageOf(va) in Span(h.Pages(0))
  {
    hide Phdr.Seg, Phdr.PageFlags;
    InSegment(h.Seg(0), h.memsz, va);
  }

  lemma {:induction false} PageHasSegment(image: seq<byte>, n: nat, p: nat)
    requires |image| >= 64 && p in PagesOf(SegmentRanges(image, 0, n))
    ensures exists i: nat :: LoadableAt(image, n, i) && p in Span(PhdrAt(image, i).Pages(0))
    decreases n
  {
    hide PhdrAt, PhdrInBounds, Span;
    if n > 0 {
      var last := if LoadableAt(image, n, n - 1) then [PhdrAt(image, n - 1).Pages(0)] else [];
      PagesOfConcat(SegmentRanges(image, 0, n - 1), last);
      if p in PagesOf(SegmentRanges(image, 0, n - 1)) {
        PageHasSegment(image, n - 1, p);
        var i: nat :| LoadableAt(image, n - 1, i) && p in Span(PhdrAt(image, i).Pages(0));
        assert LoadableAt(image, n, i);
      } else {
        assert last[1..] == [];
      }
    }
  }

  /** The image end that the loader stores for this image. */
  ghost predicate EndsAt(image: seq<byte>, imageEnd: nat)
    requires |image| >= 64
  {
    exists end: nat :: IsImageEnd(image, 0, Phnum(image), end) && imageEnd == Max(end, USER_TEXT_BASE + PAGE)
  }

  /** Every page of the image starts below its end. */
  lemma PageBelowEnd(image: seq<byte>, imageEnd: nat, p: nat)
    requires |image| >= 64 && EndsAt(image, imageEnd) && p in ImagePagesOf(image)
    ensures p * PAGE < imageEnd
  {
    hide SegmentRanges, PhdrAt, Phnum, PhdrInBounds, Phdr.Seg;
    var end: nat :| IsImageEnd(image, 0, Phnum(image), end) && imageEnd == Max(end, USER_TEXT_BASE + PAGE);
    PageHasSegment(image, Phnum(image), p);
    var i: nat :| LoadableAt(image, Phnum(image), i) && p in Span(PhdrAt(image, i).Pages(0));
    var h := PhdrAt(image, i);
    assert p <= PageOf(h.Seg(0) + h.memsz - 1);
  }

  /** If exec can succeed, the stack page survives the drop and all of the image is dropped, so the image is page
      0x400. */
  lemma OnlyTextPage(u: User, image: seq<byte>, imageEnd: nat, argv: seq<Bytes>, envp: seq<Bytes>)
    requires Owned(u.mem) && |image| >= 64 && EndsAt(image, imageEnd) && STACK_PAGE !in ImagePagesOf(image)
    requires forall p | p in ImagePagesOf(image) && p < TEXT_PAGE :: p in u.mem.pt
    requires ExecCan(u, imageEnd, image, 0, argv, envp)
    ensures ImagePagesOf(image) == {TEXT_PAGE}
  {
    hide Owned, Do, SegmentRanges, HeadersOk, CheckHeader, Demand, PhdrAt, Phoff, EndsAt, Apart, StackSize, Phnum,
         PhdrInBounds, PagesOf, Span;
    DropPages(u, imageEnd);
    var m' := Dropped(u, imageEnd);
    assert STACK_PAGE in m'.pt;
    forall p | p in ImagePagesOf(image) ensures p == TEXT_PAGE {
      PageBelowEnd(image, imageEnd, p);
    }
    var i: nat :| LoadableAt(image, Phnum(image), i) && PhdrAt(image, i).Holds(Phoff(image));
    SomePage(image, i);
  }

  lemma SomePage(image: seq<byte>, i: nat)
    requires |image| >= 64 && LoadableAt(image, Phnum(image), i)
    ensures ImagePagesOf(image) != {}
  {
    hide PhdrAt, SegmentRanges, Phnum, PhdrInBounds;
    SegmentInPages(image, Phnum(image), i);
    ByteInSpan(PhdrAt(image, i), PhdrAt(image, i).Seg(0));
  }

  /** An image that is page 0x400 ends there. */
  lemma EndsWithText(image: seq<byte>, imageEnd: nat)
    requires |image| >= 64 && EndsAt(image, imageEnd) && ImagePagesOf(image) == {TEXT_PAGE}
    ensures imageEnd == USER_TEXT_BASE + PAGE
  {
    hide SegmentRanges, PhdrAt, Phnum, PhdrInBounds, Phdr.Seg, Span;
    var end: nat :| IsImageEnd(image, 0, Phnum(image), end) && imageEnd == Max(end, USER_TEXT_BASE + PAGE);
    if end != 0 {
      var i :| LoadableAt(image, Phnum(image), i) && PhdrAt(image, i).Seg(0) + PhdrAt(image, i).memsz == end;
      SegmentInPages(image, Phnum(image), i);
      ByteInSpan(PhdrAt(image, i), end - 1);
    }
  }

  /** The headers stay in order while the pages that were mapped at the load are mapped. */
  lemma HeadersStayOk(before: Mem, m: Mem, image: seq<byte>)
    requires |image| >= 64 && HeadersOk(before, image, 0, Phnum(image)) && forall p | p in before.pt :: p in m.pt
    ensures HeadersOk(m, image, 0, Phnum(image))
  {
    hide PhdrAt, PhdrInBounds, Phnum, HeaderOk, SegmentRanges, PagesOf;
    forall i: nat | LoadableAt(image, Phnum(image), i)
      ensures FileOk(image, 0, PhdrAt(image, i), PagesAt(m, image, 0, i))
    {
      assert FileOk(image, 0, PhdrAt(image, i), PagesAt(before, image, 0, i));
      assert PagesAt(before, image, 0, i) <= PagesAt(m, image, 0, i);
    }
  }

  /** Dropping page 0x400 frees a frame, and its tables are there, so it can be mapped again. */
  lemma TextFitsAgain(u: User, ranges: seq<PageRange>)
    requires Owned(u.mem) && Rooted(u.mem) && TEXT_PAGE in u.mem.pt && STACK_PAGE in u.mem.pt
    requires Apart(ranges) && PagesOf(ranges) == {TEXT_PAGE}
    ensures var m' := Do(u, UnmapImage(USER_TEXT_BASE + PAGE)).user.mem; LoadFits(m', ranges) && STACK_PAGE in m'.pt
  {
    hide Owned, Do, Apart, PagesOf, Demand, Rooted, Absent;
    var m' := Do(u, UnmapImage(USER_TEXT_BASE + PAGE)).user.mem;
    DropPages(u, USER_TEXT_BASE + PAGE);
    CallRooted(u, UnmapImage(USER_TEXT_BASE + PAGE));
    DropFrees(u);
    TablesInPlace(m');
    DemandInRegion(m', {TEXT_PAGE}, TEXT_PAGE);
  }

  lemma DropFrees(u: User)
    requires Owned(u.mem) && TEXT_PAGE in u.mem.pt
    ensures |Do(u, UnmapImage(USER_TEXT_BASE + PAGE)).user.mem.free| >= 1
  {
    hide Owned, UnmapRange, FramesIn;
    UnmapRangePages(u.mem, TEXT_PAGE, ImagePages(USER_TEXT_BASE + PAGE));
    FreedFrame(u.mem.pt, TEXT_PAGE, ImagePages(USER_TEXT_BASE + PAGE));
  }

  lemma TablesInPlace(m: Mem)
    requires Rooted(m) && STACK_PAGE in m.pt
    ensures |Absent(m, TEXT_PAGE)| == 0
  {
    hide Path;
    NeighbourTables(STACK_PAGE, TEXT_PAGE);
    assert Absent(m, TEXT_PAGE) == {};
  }

  lemma FreedFrame(pt: map<nat, Pte>, page: nat, n: nat)
    requires page in pt && n > 0
    ensures pt[page].frame in FramesIn(pt, page, n)
  {
    assert InRange(page, page, n);
  }

  /** The page 0x400 can be dropped and loaded again, stack or not. */
  lemma Reloads(u: User, before: Mem, image: seq<byte>, imageEnd: nat)
    requires Owned(u.mem) && Rooted(u.mem) && RunningImage(u.mem, before, image, imageEnd)
    requires ImagePagesOf(image) == {TEXT_PAGE}
    ensures imageEnd == USER_TEXT_BASE + PAGE
    ensures var m' := Dropped(u, imageEnd);
            LoadOk(m', image, 0) && STACK_PAGE in m'.pt && forall p | p in before.pt :: p in m'.pt
  {
    hide Owned, Rooted, Do, HeadersOk, CheckHeader, SegmentRanges, Demand, Phnum, PhdrAt, Phoff, IsImageEnd, Apart;
    EndsWithText(image, imageEnd);
    DropPages(u, imageEnd);
    var m' := Dropped(u, imageEnd);
    assert TEXT_PAGE !in before.pt;
    forall p | p in before.pt ensures p in m'.pt {
      assert p != TEXT_PAGE;
    }
    HeadersStayOk(before, m', image);
    FitsApart(before, SegmentRanges(image, 0, Phnum(image)));
    TextFitsAgain(u, SegmentRanges(image, 0, Phnum(image)));
  }

  lemma FitsApart(m: Mem, ranges: seq<PageRange>)
    requires LoadFits(m, ranges)
    ensures Apart(ranges)
  {
  }

  /** Exec of the running image can succeed if and only if the image is exactly the page 0x400 and the arguments fit the
      stack page: any page below the text base stays mapped and is refused, and any page above 0x400 takes the stack
      page with it when it is dropped. */
  lemma ReExecExactly(u: User, before: Mem, image: seq<byte>, imageEnd: nat, argv: seq<Bytes>, envp: seq<Bytes>)
    requires Owned(u.mem) && Rooted(u.mem) && RunningImage(u.mem, before, image, imageEnd)
    ensures ExecCan(u, imageEnd, image, 0, argv, envp) <==>
            ImagePagesOf(image) == {TEXT_PAGE} && StackSize(argv, envp) <= PAGE
  {
    hide Owned, Rooted, Do, HeadersOk, CheckHeader, StackSize, SegmentRanges, LoadFits, Phnum, PhdrAt, Phoff,
         IsImageEnd;
    if ExecCan(u, imageEnd, image, 0, argv, envp) {
      OnlyTextPage(u, image, imageEnd, argv, envp);
    }
    if ImagePagesOf(image) == {TEXT_PAGE} {
      Reloads(u, before, image, imageEnd);
    }
  }

  // ----- every exec of every run -----

  /** The largest end among the segments of the first n headers. */
  ghost function MaxEnd(image: seq<byte>, n: nat): nat
    requires |image| >= 64
  {
    if n == 0 then 0
    else Max(MaxEnd(image, n - 1),
             if LoadableAt(image, n, n - 1) then PhdrAt(image, n - 1).Seg(0) + PhdrAt(image, n - 1).memsz else 0)
  }

  lemma {:induction false} MaxEndIs(image: seq<byte>, n: nat)
    requires |image| >= 64
    ensures IsImageEnd(image, 0, n, MaxEnd(image, n))
    decreases n
  {
    hide PhdrAt, PhdrInBounds, Phdr.Seg;
    if n > 0 {
      MaxEndIs(image, n - 1);
      assert forall i :: LoadableAt(image, n - 1, i) ==> LoadableAt(image, n, i);
      assert forall i :: LoadableAt(image, n, i) ==> LoadableAt(image, n - 1, i) || i == n - 1;
    }
  }

  lemma OneEnd(image: seq<byte>, imageEnd: nat)
    requires |image| >= 64
    ensures EndsAt(image, imageEnd) <==> imageEnd == Max(MaxEnd(image, Phnum(image)), USER_TEXT_BASE + PAGE)
  {
    hide PhdrAt, PhdrInBounds, Phdr.Seg, Phnum, MaxEnd;
    MaxEndIs(image, Phnum(image));
  }

  /** All processes, and USER_IMAGE_END. */
  datatype Machine = Machine(shared: Shared, imageEnd: nat)

  datatype Happening =
    | Memory(ev: SharedMemory.Event)
    | ExecBy(pid: nat)  // an exec whose arguments could be read

  /** Exec is the only source of image calls. */
  predicate Proper(h: Happening) {
    h.Memory? && h.ev.By? ==> !h.ev.call.UnmapImage? && !h.ev.call.LoadImage?
  }

  ghost function Happen(x: Machine, image: seq<byte>, h: Happening): Machine {
    match h
    case Memory(ev) => x.(shared := SharedMemory.Step(x.shared, ev))
    case ExecBy(pid) =>
      if pid !in x.shared.procs || x.imageEnd > LOWER_HALF then x
      else
        var m := Dropped(ViewOf(x.shared, pid), x.imageEnd);
        var s1 := SharedMemory.Step(x.shared, By(pid, UnmapImage(x.imageEnd)));
        Machine(SharedMemory.Step(s1, By(pid, LoadImage(TriedRanges(image, 0, TriedHeaders(m, image))))),
                if LoadOk(m, image, 0) then Max(MaxEnd(image, Phnum(image)), USER_TEXT_BASE + PAGE) else x.imageEnd)
  }

  ghost function Happenings(x: Machine, image: seq<byte>, hs: seq<Happening>): Machine
    decreases |hs|
  {
    if hs == [] then x else Happenings(Happen(x, image, hs[0]), image, hs[1..])
  }

  /** The machine does what the call does: after an exec by process p, its arguments read, memory, the process's
      bookkeeping and the image end are those of the happening; the others' bookkeeping is as it was. An
      exec whose arguments cannot be read is no happening at all, and neither is one that stops the kernel while it
      drops the old image. */
  method ExecHappens(p: Process, image: seq<byte>, path: u64, argvPtr: u64, envpPtr: u64, ghost x: Machine,
                     ghost pid: nat)
      returns (r: Executed)
    requires p.space.Valid() && Owned(p.space.View()) && pid in x.shared.procs
    requires ViewOf(x.shared, pid) == p.View() && x.imageEnd == p.imageEnd
    modifies p, p.space, p.space.frames, p.space.frames.bitmap
    ensures var args := ExecArguments(old(SightOf(p)), path, argvPtr, envpPtr);
            var x' := if args.Ok? then Happen(x, image, ExecBy(pid)) else x;
            && (args.Ok? && x.imageEnd > LOWER_HALF ==> r == Stopped && x' == x)
            && (!args.Ok? || x.imageEnd <= LOWER_HALF ==>
                  && pid in x'.shared.procs && ViewOf(x'.shared, pid) == p.View() && x'.imageEnd == p.imageEnd
                  && x'.shared.procs == x.shared.procs)
  {
    hide Owned, LoadOk, ExecLeaves, TriedRanges, TriedHeaders, CheckHeader, Justified, Tried, Phnum, UserMemory.Run,
         SharedMemory.Step, PtrVector, ReadWord, ReadBytes, ReadableRange, AuxNames, SegmentsInPlace, ExecCan, Entry,
         FileWithinMem, StackSize;
    ghost var u, g := p.View(), SightOf(p);
    ghost var m := Dropped(u, p.imageEnd);
    ghost var k, n, v;
    r, k, n, v := SysExecve(p, image, path, argvPtr, envpPtr);
    if ExecArguments(g, path, argvPtr, envpPtr).Ok? && x.imageEnd <= LOWER_HALF {
      TriedIs(m, image, k, n);
      EndAfterExec(u, g, SightOf(p), image, k, v);
      SameRun(x, image, pid, n);
    }
  }

  /** The image end that exec stores. */
  lemma EndAfterExec(u: User, g: Sight, g': Sight, image: seq<byte>, k: nat, v: Bytes)
    requires g.bounds.imageEnd < TWO64 && ExecLeaves(u, g, g', image, 0, k, v)
    ensures g'.bounds.imageEnd == if LoadOk(Dropped(u, g.bounds.imageEnd), image, 0)
                                  then Max(MaxEnd(image, Phnum(image)), USER_TEXT_BASE + PAGE) else g.bounds.imageEnd
  {
    hide ExecBytes, Survivors, WithinSegments, HeadersOk, LoadFits, IsImageEnd, IsRwMin, Phnum, MaxEnd, PhdrAt, Phoff,
         CopiedThere;
    if LoadOk(Dropped(u, g.bounds.imageEnd), image, 0) {
      assert |image| >= 64;
      OneEnd(image, g'.bounds.imageEnd);
    }
  }

  /** The two memory calls of exec, as the machine runs them. */
  lemma SameRun(x: Machine, image: seq<byte>, pid: nat, n: nat)
    requires pid in x.shared.procs && x.imageEnd <= LOWER_HALF
    requires var m := Dropped(ViewOf(x.shared, pid), x.imageEnd);
             TriedRanges(image, 0, n) == TriedRanges(image, 0, TriedHeaders(m, image))
    ensures var s := Happen(x, image, ExecBy(pid)).shared;
            && s.procs == x.shared.procs
            && ViewOf(s, pid) == UserMemory.Run(ViewOf(x.shared, pid),
                                                [UnmapImage(x.imageEnd), LoadImage(TriedRanges(image, 0, n))])
  {
    hide LoadOk, TriedRanges, TriedHeaders, UnmapRange, LoadRanges, MaxEnd, Phnum;
    var u := ViewOf(x.shared, pid);
    TwoCalls(u, x.imageEnd, TriedRanges(image, 0, n));
    var s1 := SharedMemory.Step(x.shared, By(pid, UnmapImage(x.imageEnd)));
    assert ViewOf(s1, pid) == Do(u, UnmapImage(x.imageEnd)).user;
    assert s1.procs == x.shared.procs;
    var s := Happen(x, image, ExecBy(pid)).shared;
    assert s.procs == x.shared.procs;
  }

  /** The frames that a happening loses. */
  ghost function Loses(x: Machine, image: seq<byte>, h: Happening): nat {
    match h
    case Memory(ev) => if LosesFrame(x.shared, ev) then 1 else 0
    case ExecBy(pid) =>
      if pid !in x.shared.procs || x.imageEnd > LOWER_HALF then 0
      else
        var m := Dropped(ViewOf(x.shared, pid), x.imageEnd);
        if LoadRanges(m, TriedRanges(image, 0, TriedHeaders(m, image))).1 == MapFailed then 1 else 0
  }

  ghost function LostBy(x: Machine, image: seq<byte>, hs: seq<Happening>): nat
    decreases |hs|
  {
    if hs == [] then 0 else Loses(x, image, hs[0]) + LostBy(Happen(x, image, hs[0]), image, hs[1..])
  }

  lemma HappenKeeps(x: Machine, image: seq<byte>, h: Happening)
    requires Owned(x.shared.mem)
    ensures var x' := Happen(x, image, h);
            Balanced(x.shared.mem, x'.shared.mem) && |x'.shared.mem.lost| == |x.shared.mem.lost| + Loses(x, image, h)
  {
    hide Owned, Universe, LoadOk, TriedRanges, TriedHeaders, MaxEnd, Phnum, LoadRanges, UnmapRange, LosesFrame;
    if h.Memory? {
      StepKeeps(x.shared, h.ev);
    } else if h.pid in x.shared.procs && x.imageEnd <= LOWER_HALF {
      var drop := By(h.pid, UnmapImage(x.imageEnd));
      var s1 := SharedMemory.Step(x.shared, drop);
      var m := Dropped(ViewOf(x.shared, h.pid), x.imageEnd);
      var load := By(h.pid, LoadImage(TriedRanges(image, 0, TriedHeaders(m, image))));
      StepKeeps(x.shared, drop);
      StepKeeps(s1, load);
      ImageLosses(x.shared, drop);
      ImageLosses(s1, load);
      assert s1.mem == m;
    }
  }

  lemma ImageLosses(s: Shared, ev: SharedMemory.Event)
    requires ev.By? && ev.pid in s.procs
    ensures ev.call.UnmapImage? ==> !LosesFrame(s, ev)
    ensures ev.call.LoadImage? ==> (LosesFrame(s, ev) <==> LoadRanges(s.mem, ev.call.ranges).1 == MapFailed)
  {
    hide LoadRanges, UnmapRange;
  }

  /** In every run of the machine, execs and all: no frame has two owners, the frames in play stay the same, and as many
      are lost as calls and loads were refused inside `map_to`. */
  lemma {:induction false} MachineFrames(x: Machine, image: seq<byte>, hs: seq<Happening>)
    requires Owned(x.shared.mem)
    ensures var x' := Happenings(x, image, hs);
            && Balanced(x.shared.mem, x'.shared.mem)
            && |x'.shared.mem.lost| == |x.shared.mem.lost| + LostBy(x, image, hs)
    decreases |hs|
  {
    hide Owned, Universe, Happen, Loses;
    if hs != [] {
      HappenKeeps(x, image, hs[0]);
      MachineFrames(Happen(x, image, hs[0]), image, hs[1..]);
    }
  }

  /** Nothing in memory `before`, into which the image was loaded, lies in heap or mmap window. */
  ghost predicate LoadedAtBoot(before: Mem, image: seq<byte>) {
    && |image| >= 64 && LoadOk(before, image, 0) && STACK_PAGE !in ImagePagesOf(image)
    && forall p | p in before.pt :: OutsideWindows(p)
  }

  ghost predicate Live(x: Machine, before: Mem, image: seq<byte>)
    requires |image| >= 64
  {
    && Owned(x.shared.mem) && Rooted(x.shared.mem) && Tidy(x.shared) && EndsAt(image, x.imageEnd)
    && (forall p | p in ImagePagesOf(image) && p < TEXT_PAGE :: p in x.shared.mem.pt)
    && (ImagePagesOf(image) == {TEXT_PAGE} ==> RunningImage(x.shared.mem, before, image, x.imageEnd))
  }

  lemma SharedStep(s: Shared, ev: SharedMemory.Event)
    requires Owned(s.mem) && Rooted(s.mem) && Tidy(s)
    ensures var s' := SharedMemory.Step(s, ev); Owned(s'.mem) && Rooted(s'.mem) && Tidy(s')
    ensures forall p | p in s.mem.pt && OutsideWindows(p) && !DropsOver(ev, p) :: p in SharedMemory.Step(s, ev).mem.pt
  {
    hide Owned, Rooted, Tidy, SharedMemory.Step, Universe;
    StepKeeps(s, ev);
    TidyStep(s, ev);
    RootedOverRuns(s, [ev]);
    assert [ev][1..] == [] && SharedMemory.Run(s, [ev]) == SharedMemory.Step(s, ev);
    forall p | p in s.mem.pt && OutsideWindows(p) && !DropsOver(ev, p) ensures p in SharedMemory.Step(s, ev).mem.pt {
      OutsideStep(s, ev, p);
    }
  }

  lemma LiveMemory(x: Machine, before: Mem, image: seq<byte>, h: Happening)
    requires LoadedAtBoot(before, image) && Live(x, before, image) && h.Memory? && Proper(h)
    ensures Live(Happen(x, image, h), before, image)
  {
    hide Owned, Rooted, Tidy, SharedMemory.Step, LoadOk, SegmentRanges, Phnum, IsImageEnd, PagesOf;
    SharedStep(x.shared, h.ev);
  }

  lemma LiveExec(x: Machine, before: Mem, image: seq<byte>, h: Happening)
    requires LoadedAtBoot(before, image) && Live(x, before, image) && h.ExecBy?
    requires h.pid in x.shared.procs && x.imageEnd <= LOWER_HALF
    ensures Live(Happen(x, image, h), before, image)
  {
    hide Owned, Rooted, Tidy, LoadOk, SegmentRanges, Phnum, IsImageEnd, PagesOf, MaxEnd, Do, LoadRanges, EndsAt;
    var u := ViewOf(x.shared, h.pid);
    var m' := Dropped(u, x.imageEnd);
    var drop := SharedMemory.By(h.pid, UnmapImage(x.imageEnd));
    var s1 := SharedMemory.Step(x.shared, drop);
    var load := SharedMemory.By(h.pid, LoadImage(TriedRanges(image, 0, TriedHeaders(m', image))));
    SharedStep(x.shared, drop);
    SharedStep(s1, load);
    OneEnd(image, x.imageEnd);
    assert s1.mem == m';
    assert forall p | p in ImagePagesOf(image) && p < TEXT_PAGE :: p in s1.mem.pt;
    if ImagePagesOf(image) == {TEXT_PAGE} {
      Reloads(u, before, image, x.imageEnd);
      ImageBack(ViewOf(s1, h.pid), image);
    }
  }

  /** A load that can succeed leaves the image's pages mapped. */
  lemma ImageBack(u: User, image: seq<byte>)
    requires LoadOk(u.mem, image, 0)
    ensures forall p | p in ImagePagesOf(image) ::
              p in Do(u, LoadImage(TriedRanges(image, 0, Phnum(image)))).user.mem.pt
  {
    hide HeadersOk, CheckHeader, SegmentRanges, Phnum, LoadRanges, PagesOf, PhdrAt, Phoff, LoadFits;
    LoadRangesExactly(u.mem, SegmentRanges(image, 0, Phnum(image)));
    LoadRangesKeys(u.mem, SegmentRanges(image, 0, Phnum(image)));
  }

  lemma {:induction false} LiveOverRuns(x: Machine, before: Mem, image: seq<byte>, hs: seq<Happening>)
    requires LoadedAtBoot(before, image) && Live(x, before, image) && forall h | h in hs :: Proper(h)
    ensures Live(Happenings(x, image, hs), before, image)
    decreases |hs|
  {
    hide Live, LoadedAtBoot, Happen, Proper;
    if hs != [] {
      assert hs[0] in hs;
      if hs[0].Memory? {
        LiveMemory(x, before, image, hs[0]);
      } else if hs[0].pid in x.shared.procs && x.imageEnd <= LOWER_HALF {
        LiveExec(x, before, image, hs[0]);
      } else {
        NoExec(x, image, hs[0]);
      }
      LiveOverRuns(Happen(x, image, hs[0]), before, image, hs[1..]);
    }
  }

  lemma NoExec(x: Machine, image: seq<byte>, h: Happening)
    requires h.ExecBy? && (h.pid !in x.shared.procs || x.imageEnd > LOWER_HALF)
    ensures Happen(x, image, h) == x
  {
  }

  /** In every run from boot, whatever the processes do and however many execs have succeeded or failed before, an exec
      can succeed if and only if the image is exactly the page 0x400 and the arguments fit. */
  lemma EveryExecExactly(x: Machine, hs: seq<Happening>, pid: nat, before: Mem, image: seq<byte>, argv: seq<Bytes>,
                         envp: seq<Bytes>)
    requires Owned(x.shared.mem) && Rooted(x.shared.mem) && Tidy(x.shared) && LoadedAtBoot(before, image)
    requires RunningImage(x.shared.mem, before, image, x.imageEnd) && forall h | h in hs :: Proper(h)
    requires pid in Happenings(x, image, hs).shared.procs
    ensures var x' := Happenings(x, image, hs);
            ExecCan(ViewOf(x'.shared, pid), x'.imageEnd, image, 0, argv, envp) <==>
            ImagePagesOf(image) == {TEXT_PAGE} && StackSize(argv, envp) <= PAGE
  {
    hide Owned, Rooted, Tidy, LoadOk, StackSize, SegmentRanges, Phnum, IsImageEnd, Happenings, PagesOf, ExecCan;
    LiveOverRuns(x, before, image, hs);
    var x' := Happenings(x, image, hs);
    var u := ViewOf(x'.shared, pid);
    if ImagePagesOf(image) == {TEXT_PAGE} {
      ReExecExactly(u, before, image, x'.imageEnd, argv, envp);
    } else if ExecCan(u, x'.imageEnd, image, 0, argv, envp) {
      OnlyTextPage(u, image, x'.imageEnd, argv, envp);
    }
  }
}
