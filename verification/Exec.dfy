/** `load_elf_exec` of src/elf.rs and `sys_execve` of src/process.rs around it: what exec does, and exactly when it
    succeeds. */
module Exec {
  import opened Basics
  import opened FrameBitmap
  import opened Paging
  import opened PageRanges
  import opened UserMemory
  import opened AddressSpace
  import opened ProcessMemory
  import opened ElfLoader
  import opened ExecStack
  import opened PtrVec
  import opened ProgramStart

  datatype ExecFailure =
    | DropFailed                    // the old image ends above the lower half; dropping it panics there
    | LoadFailed(load: ElfError)
    | StackFailed(stack: ExecError)

  /** The segment shares no byte with the stack page. */
  predicate ClearOfStack(h: Phdr, bias: u64) {
    h.Seg(bias) + h.memsz <= STACK_LO || USER_STACK_TOP <= h.Seg(bias)
  }

  /** The new stack leaves every segment outside the stack page as loaded. */
  lemma SegmentsOutliveStack(pt: map<nat, Pte>, ram: map<nat, byte>, ram': map<nat, byte>,
                             image: seq<byte>, bias: u64, n: nat)
    requires |image| >= 64 && AllLoaded(pt, ram, image, bias, n)
    requires forall a: nat | PageOf(a) in pt && !(STACK_LO <= a < USER_STACK_TOP) ::
               ReadVirt(pt, ram', a) == ReadVirt(pt, ram, a)
    ensures forall i | LoadableAt(image, n, i) && ClearOfStack(PhdrAt(image, i), bias) ::
              SegmentLoaded(pt, ram', image, PhdrAt(image, i), bias)
  {
    hide PhdrAt;
    forall i | LoadableAt(image, n, i) && ClearOfStack(PhdrAt(image, i), bias)
      ensures SegmentLoaded(pt, ram', image, PhdrAt(image, i), bias)
    {
      var h := PhdrAt(image, i);
      assert SegmentLoaded(pt, ram, image, h, bias);
      forall va: nat | h.Seg(bias) <= va < h.Seg(bias) + h.memsz
        ensures ReadVirt(pt, ram', va) == ReadVirt(pt, ram, va)
      {
        assert ReadVirt(pt, ram, va).Some?;
      }
    }
  }

  /** The image is in memory with its initial stack: every segment outside the stack page is loaded. */
  ghost predicate ImageReady(pt: map<nat, Pte>, ram: map<nat, byte>, image: seq<byte>, bias: u64, meta: ElfLoadedMeta,
                             argv: seq<Bytes>, envp: seq<Bytes>, v: Bytes)
    requires |image| >= 64
  {
    && InitialStack(v, meta, argv, envp) && StackBytes(pt, ram, v)
    && (FileWithinMem(image, Phnum(image)) ==>
          forall i | LoadableAt(image, Phnum(image), i) && ClearOfStack(PhdrAt(image, i), bias) ::
            SegmentLoaded(pt, ram, image, PhdrAt(image, i), bias))
  }

  /** The ranges of the first n headers; an image that fails the header check has none. */
  ghost function TriedRanges(image: seq<byte>, bias: u64, n: nat): seq<PageRange> {
    if CheckHeader(image).Some? then [] else SegmentRanges(image, bias, n)
  }

  /** How many headers have their pages tried by a load into memory m. */
  ghost function TriedHeaders(m: Mem, image: seq<byte>): nat {
    if CheckHeader(image).Some? then 0
    else if LoadOk(m, image, 0) then Phnum(image) else Tried(image, 0, StopsAt(m, image, 0, 0))
  }

  /** It is what the loader reports. */
  lemma TriedIs(m: Mem, image: seq<byte>, k: nat, n: nat)
    requires LoadOk(m, image, 0) ==> n == Phnum(image)
    requires CheckHeader(image) == None && !LoadOk(m, image, 0) ==>
               n == Tried(image, 0, k) && exists e :: Justified(m, image, 0, k, e)
    ensures TriedRanges(image, 0, n) == TriedRanges(image, 0, TriedHeaders(m, image))
  {
    hide LoadOk, Justified, Tried, SegmentRanges, StopsAt, Phnum;
    if CheckHeader(image) == None && !LoadOk(m, image, 0) {
      var e :| Justified(m, image, 0, k, e);
      StopsWhereJustified(m, image, 0, 0, k, e);
    }
  }

  /** Exec of these arguments can succeed in memory m, from which the old image is gone: the new image can be loaded,
      the layout fits the stack page, and that page is mapped or part of the image. */
  ghost predicate ExecOk(m: Mem, image: seq<byte>, bias: u64, argv: seq<Bytes>, envp: seq<Bytes>) {
    && LoadOk(m, image, bias)
    && StackSize(argv, envp) <= PAGE
    && PageOf(STACK_LO) in m.pt.Keys + PagesOf(TriedRanges(image, bias, Phnum(image)))
  }

  /** Exec by a process in state u, whose image ends at `imageEnd`, can succeed. */
  ghost predicate ExecCan(u: User, imageEnd: nat, image: seq<byte>, bias: u64, argv: seq<Bytes>, envp: seq<Bytes>) {
    imageEnd <= LOWER_HALF && ExecOk(Dropped(u, imageEnd), image, bias, argv, envp)
  }

  /** Memory once the old image is gone. */
  ghost function Dropped(u: User, imageEnd: u64): Mem {
    Do(u, UnmapImage(imageEnd)).user.mem
  }

  /** What lies behind a failed exec. */
  ghost predicate ExecCause(e: ExecFailure, m: Mem, image: seq<byte>, bias: u64, k: nat,
                            argv: seq<Bytes>, envp: seq<Bytes>, pt: map<nat, Pte>) {
    match e
    case DropFailed => false
    case LoadFailed(f) =>
      if CheckHeader(image).Some? then f == CheckHeader(image).value else Justified(m, image, bias, k, f)
    case StackFailed(StackOverflow) => StackSize(argv, envp) > PAGE
    case StackFailed(NoMap) => StackSize(argv, envp) <= PAGE && PageOf(STACK_LO) !in pt
  }

  // ----- what exec leaves in memory -----

  /** Memory as the kernel reaches it for this process. */
  function SightOf(p: Process): Sight
    reads p, p.space
  {
    Sight(p.space.pt, p.space.ram, p.Region())
  }

  /** The file byte that n headers of the image and c more bytes leave at va; an image that fails the header check has
      none. */
  ghost function ImageByte(image: seq<byte>, bias: u64, n: nat, c: nat, va: nat): Option<byte> {
    if CheckHeader(image).Some? then None else FileByteTo(image, bias, n, c, va)
  }

  /** Every byte that exec leaves mapped: the new stack's, the image's, or else the one that was there on a page that
      was not dropped, and zero on a new page. */
  ghost predicate ExecBytes(pt: map<nat, Pte>, ram: map<nat, byte>, pt': map<nat, Pte>, ram': map<nat, byte>,
                            image: seq<byte>, bias: u64, n: nat, c: nat, v: Bytes) {
    forall va: nat | PageOf(va) in pt' ::
      var b := ImageByte(image, bias, n, c, va);
      ReadVirt(pt', ram', va) ==
      if STACK_LO <= va < STACK_LO + |v| then Some(v[va - STACK_LO])
      else if b.Some? then b else Cleared(pt, ram, va)
  }

  /** Every byte on a page that is not dropped, but for the new stack's, reads as it did. */
  ghost predicate Survivors(pt: map<nat, Pte>, ram: map<nat, byte>, pt': map<nat, Pte>, ram': map<nat, byte>,
                            imageEnd: nat, v: Bytes) {
    forall va: nat | && PageOf(va) in pt && !(PageOf(USER_TEXT_BASE) <= PageOf(va) && PageOf(va) * PAGE < imageEnd)
                     && !(STACK_LO <= va < STACK_LO + |v|) ::
      PageOf(va) in pt' && ReadVirt(pt', ram', va) == ReadVirt(pt, ram, va)
  }

  /** No file bytes of the image go beyond their segment. */
  ghost predicate WithinSegments(image: seq<byte>) {
    CheckHeader(image) == None ==> FileWithinMem(image, Phnum(image))
  }

  /** The bounds that the access checks keep of this image: its end, no less than 0x401000, and the lowest start of a
      writable segment, or 0x401000. */
  ghost predicate BoundsOf(image: seq<byte>, bias: u64, imageEnd: nat, rwStart: nat)
    requires |image| >= 64
  {
    exists end: nat, rw: Option<nat> ::
      && IsImageEnd(image, bias, Phnum(image), end) && IsRwMin(image, bias, Phnum(image), rw)
      && imageEnd == Max(end, 0x401000) && rwStart == if rw.Some? then rw.value else 0x401000
  }

  /** What exec leaves of memory g once it has dropped the old image of process u: the bytes and bounds of an image that
      could be loaded, or the old bounds and the bytes copied up to header k, where the load stopped. */
  ghost predicate ExecLeaves(u: User, g: Sight, g': Sight, image: seq<byte>, bias: u64, k: nat, v: Bytes)
    requires g.bounds.imageEnd < TWO64
  {
    var m := Dropped(u, g.bounds.imageEnd);
    && (if LoadOk(m, image, bias)
        then && ExecBytes(m.pt, g.ram, g'.pt, g'.ram, image, bias, Phnum(image), 0, v)
             && BoundsOf(image, bias, g'.bounds.imageEnd, g'.bounds.rwStart)
        else && ExecBytes(m.pt, g.ram, g'.pt, g'.ram, image, bias, k, CopiedThere(m, image, bias, k), v)
             && v == [] && g'.bounds == g.bounds)
    && (WithinSegments(image) ==> Survivors(g.pt, g.ram, g'.pt, g'.ram, g.bounds.imageEnd, v))
  }

  ghost function CopiedThere(m: Mem, image: seq<byte>, bias: u64, k: nat): nat {
    if CheckHeader(image).Some? then 0 else CopiedAt(m, image, bias, k)
  }

  /** A load that failed at header k, or one whose image failed the header check. */
  lemma LeftByFailure(u: User, g: Sight, g': Sight, image: seq<byte>, bias: u64, k: nat)
    requires Owned(u.mem) && g.bounds.imageEnd < TWO64 && g.pt == u.mem.pt && g'.bounds == g.bounds
    requires var m := Dropped(u, g.bounds.imageEnd);
             && !LoadOk(m, image, bias)
             && (CheckHeader(image).Some? ==> g'.pt == m.pt && g'.ram == g.ram)
             && (CheckHeader(image) == None ==>
                   && Written(m.pt, g.ram, g'.pt, g'.ram, image, bias, k, CopiedAt(m, image, bias, k))
                   && (FileWithinMem(image, Phnum(image)) ==> SameView(m.pt, g.ram, g'.pt, g'.ram)))
    ensures ExecLeaves(u, g, g', image, bias, k, [])
  {
    hide Owned, Dropped, LoadOk, CheckHeader, FileWithinMem, Phnum, FileByteTo, CopiedAt, ReadVirt;
    var m := Dropped(u, g.bounds.imageEnd);
    if WithinSegments(image) {
      SurvivesDrop(u, g, g', []);
    }
  }

  /** A load that succeeded, with the stack v written over it. */
  lemma LeftBySuccess(u: User, g: Sight, ram1: map<nat, byte>, g': Sight, image: seq<byte>, bias: u64, k: nat, v: Bytes)
    requires Owned(u.mem) && g.bounds.imageEnd < TWO64 && g.pt == u.mem.pt
    requires var m := Dropped(u, g.bounds.imageEnd);
             && LoadOk(m, image, bias) && Written(m.pt, g.ram, g'.pt, ram1, image, bias, Phnum(image), 0)
             && (FileWithinMem(image, Phnum(image)) ==> SameView(m.pt, g.ram, g'.pt, ram1))
    requires StackBytes(g'.pt, g'.ram, v) && BoundsOf(image, bias, g'.bounds.imageEnd, g'.bounds.rwStart)
    requires forall a: nat | PageOf(a) in g'.pt && !(STACK_LO <= a < STACK_LO + |v|) ::
               ReadVirt(g'.pt, g'.ram, a) == ReadVirt(g'.pt, ram1, a)
    ensures ExecLeaves(u, g, g', image, bias, k, v)
  {
    assert CheckHeader(image) == None;
    hide Owned, Dropped, LoadOk, CheckHeader, FileWithinMem, Phnum, CopiedAt, ReadVirt, BoundsOf, Written, ExecBytes,
         StackBytes;
    StackOver(Dropped(u, g.bounds.imageEnd).pt, g.ram, ram1, g', image, bias, v);
    if WithinSegments(image) {
      SurvivesDrop(u, g, g', v);
    }
  }

  lemma StackOver(pt: map<nat, Pte>, ram: map<nat, byte>, ram1: map<nat, byte>, g': Sight, image: seq<byte>, bias: u64,
                  v: Bytes)
    requires CheckHeader(image) == None && Written(pt, ram, g'.pt, ram1, image, bias, Phnum(image), 0)
    requires StackBytes(g'.pt, g'.ram, v)
    requires forall a: nat | PageOf(a) in g'.pt && !(STACK_LO <= a < STACK_LO + |v|) ::
               ReadVirt(g'.pt, g'.ram, a) == ReadVirt(g'.pt, ram1, a)
    ensures ExecBytes(pt, ram, g'.pt, g'.ram, image, bias, Phnum(image), 0, v)
  {
    hide CheckHeader, Phnum, FileByteTo, ReadVirt, Cleared;
  }

  /** What survives the drop and reads the same afterwards. */
  lemma SurvivesDrop(u: User, g: Sight, g': Sight, v: Bytes)
    requires Owned(u.mem) && g.bounds.imageEnd < TWO64 && g.pt == u.mem.pt
    requires var m := Dropped(u, g.bounds.imageEnd);
             forall va: nat | PageOf(va) in m.pt && !(STACK_LO <= va < STACK_LO + |v|) ::
               PageOf(va) in g'.pt && ReadVirt(g'.pt, g'.ram, va) == ReadVirt(m.pt, g.ram, va)
    ensures Survivors(g.pt, g.ram, g'.pt, g'.ram, g.bounds.imageEnd, v)
  {
    hide Owned, Do;
    DropPages(u, g.bounds.imageEnd);
    var m := Dropped(u, g.bounds.imageEnd);
    assert forall va: nat | PageOf(va) in m.pt :: ReadVirt(m.pt, g.ram, va) == ReadVirt(g.pt, g.ram, va);
    hide ReadVirt;
  }

  lemma BoundsOfMeta(image: seq<byte>, bias: u64, k: nat, meta: ElfLoadedMeta)
    requires |image| >= 64 && MetaOf(image, bias, k, meta)
    ensures BoundsOf(image, bias, Max(meta.imageEnd, USER_TEXT_BASE + PAGE), meta.rwMin)
  {
    hide IsImageEnd, IsRwMin, IsPhdrVa, Phnum, Entry;
  }

  /** The part of exec after the load: record the image bounds and build the stack. */
  method EnterImage(p: Process, image: seq<byte>, bias: u64, meta: ElfLoadedMeta, argv: seq<Bytes>, envp: seq<Bytes>)
      returns (r: Result<nat, ExecError>, ghost v: Bytes)
    requires p.space.Valid() && Owned(p.space.View()) && |argv| < Pow256(8)
    requires |image| >= 64 && LoadedUpTo(p.space.pt, p.space.ram, image, bias, Phnum(image))
    requires MetaFits(meta) && meta.imageEnd < TWO64
    modifies p`imageEnd, p`rwStart, p.space`ram
    ensures p.space.Valid()
    ensures p.imageEnd == Max(meta.imageEnd, USER_TEXT_BASE + PAGE) && p.rwStart == meta.rwMin
    ensures r == Failure(StackOverflow) <==> StackSize(argv, envp) > PAGE
    ensures r == Failure(NoMap) <==> StackSize(argv, envp) <= PAGE && PageOf(STACK_LO) !in p.space.pt
    ensures r.Success? ==>
              r.value == STACK_LO && ImageReady(p.space.pt, p.space.ram, image, bias, meta, argv, envp, v)
    ensures r.Failure? ==> v == []
    ensures StackBytes(p.space.pt, p.space.ram, v)
    ensures forall a: nat | PageOf(a) in p.space.pt && !(STACK_LO <= a < STACK_LO + |v|) ::
              ReadVirt(p.space.pt, p.space.ram, a) == ReadVirt(p.space.pt, old(p.space.ram), a)
    ensures Confined(p.space.View(), old(p.space.ram), p.space.View(), p.space.ram)
  {
    hide Owned, InitialStack, FileWithinMem, PhdrAt, LoadableAt, SegmentLoaded, StackSize, LoadedUpTo, ReadVirt,
         Confined;
    ghost var pt, ram := p.space.pt, p.space.ram;
    p.ApplyUserMeta(meta.imageEnd, meta.rwMin);
    r, v := BuildExecStack(p.space, meta, argv, envp);
    if r.Success? && FileWithinMem(image, Phnum(image)) {
      LoadedAll(pt, ram, image, bias);
      SegmentsOutliveStack(pt, ram, p.space.ram, image, bias, Phnum(image));
    }
  }

  /** Exec succeeds if and only if it can. Whatever fails on the way, it is a run of memory calls on the ranges of the
      image's headers, so frame ownership and conservation hold after it, every mapped byte is accounted for, and
      neither frames left free nor memory outside the frames in play are written. On success the returned stack pointer
      heads the initial stack for exactly these arguments and this image, and the segments outside the stack page are in
      memory; a failure has the cause its error names. */
  method LoadElfExec(p: Process, image: seq<byte>, bias: u64, argv: seq<Bytes>, envp: seq<Bytes>)
      returns (r: Result<(u64, nat), ExecFailure>, ghost k: nat, ghost n: nat, ghost meta: Option<ElfLoadedMeta>,
               ghost v: Bytes)
    requires p.space.Valid() && Owned(p.space.View()) && |argv| < Pow256(8)
    modifies p, p.space, p.space.frames, p.space.frames.bitmap
    ensures p.space.Valid() && Owned(p.space.View())
    ensures ElsewhereKept(p.space.View(), old(p.space.ram), p.space.ram)
    ensures r.Success? <==> ExecCan(old(p.View()), old(p.imageEnd), image, bias, argv, envp)
    ensures CheckHeader(image) == None ==> n <= Phnum(image)
    ensures p.View() == UserMemory.Run(old(p.View()), [UnmapImage(Min(old(p.imageEnd), LOWER_HALF)),
                                                       LoadImage(TriedRanges(image, bias, n))])
    ensures r == Failure(DropFailed) <==> old(p.imageEnd) > LOWER_HALF
    ensures r == Failure(DropFailed) ==>
              n == 0 && p.space.ram == old(p.space.ram) && p.Region() == old(p.Region())
    ensures r != Failure(DropFailed) ==> ExecLeaves(old(p.View()), old(SightOf(p)), SightOf(p), image, bias, k, v)
    ensures r.Success? ==>
              && CheckHeader(image) == None && n == Phnum(image)
              && meta.Some? && MetaOf(image, bias, k, meta.value)
              && r.value == (meta.value.entry, STACK_LO)
              && ImageReady(p.space.pt, p.space.ram, image, bias, meta.value, argv, envp, v)
              && p.imageEnd == Max(meta.value.imageEnd, USER_TEXT_BASE + PAGE) && p.rwStart == meta.value.rwMin
    ensures r.Failure? ==> v == []
    ensures r.Failure? && r.error.LoadFailed? && CheckHeader(image) == None ==> n == Tried(image, bias, k)
    ensures r.Failure? && r.error.StackFailed? ==>
              && CheckHeader(image) == None && n == Phnum(image)
              && LoadOk(Dropped(old(p.View()), old(p.imageEnd)), image, bias)
    ensures r.Failure? && r.error != DropFailed ==>
              ExecCause(r.error, Dropped(old(p.View()), old(p.imageEnd)), image, bias, k, argv, envp, p.space.pt)
  {
    hide Owned, Universe, ImageReady, FileWithinMem, MetaOf, Do, SumsFit, Justified, StackSize, CheckHeader, SameView,
         LoadRanges, FreeSet, LoadedUpTo, MetaFits, UserMemory.Run, ExecCause, ExecOk, Phnum, LoadOk, SegmentRanges,
         ExecLeaves, Written, BoundsOf, CopiedAt, Tried, ReadVirt, StackBytes, Confined, ElsewhereKept;
    k, n, meta, v := 0, 0, None, [];
    ghost var before, g, hi := p.View(), SightOf(p), Min(p.imageEnd, LOWER_HALF);
    var dropped := p.UnmapOldImage();
    CallKeeps(before, UnmapImage(hi));
    ghost var mid := p.View();
    ConfinedQuietly(mid.mem, mid.mem, g.ram);
    ConfinedKeeps(mid.mem, g.ram, mid.mem, g.ram);
    TwoCalls(before, hi, TriedRanges(image, bias, n));
    NothingTried(mid.mem);
    if !dropped {
      NoneTried(image, bias);
      return Failure(DropFailed), k, n, meta, v;
    }
    var loaded;
    loaded, k, n := LoadElfMapped(p.space, image, bias);
    ConfinedKeeps(mid.mem, g.ram, p.space.View(), p.space.ram);
    TwoCalls(before, hi, TriedRanges(image, bias, n));
    assert p.View() == mid.(mem := LoadRanges(mid.mem, TriedRanges(image, bias, n)).0);
    if loaded.Failure? {
      CauseOfLoad(loaded.error, mid.mem, image, bias, k, argv, envp, p.space.pt);
      LeftByFailure(before, g, SightOf(p), image, bias, k);
      return Failure(LoadFailed(loaded.error)), k, n, meta, v;
    }
    meta := Some(loaded.value);
    MetaInRange(image, bias, k, loaded.value);
    StackAfterLoad(mid.mem, image, bias, argv, envp);
    BoundsOfMeta(image, bias, k, loaded.value);
    ghost var ram1 := p.space.ram;
    var stack;
    stack, v := EnterImage(p, image, bias, loaded.value, argv, envp);
    ConfinedTwice(mid.mem, g.ram, p.space.View(), ram1, p.space.View(), p.space.ram);
    ConfinedKeeps(mid.mem, g.ram, p.space.View(), p.space.ram);
    LeftBySuccess(before, g, ram1, SightOf(p), image, bias, k, v);
    if stack.Failure? {
      CauseOfStack(stack.error, mid.mem, image, bias, k, argv, envp, p.space.pt);
      return Failure(StackFailed(stack.error)), k, n, meta, v;
    }
    r := Success((loaded.value.entry, stack.value));
  }

  lemma NoneTried(image: seq<byte>, bias: u64)
    ensures TriedRanges(image, bias, 0) == []
  {
  }

  lemma NothingTried(m: Mem)
    ensures LoadRanges(m, []) == (m, Mapped)
  {
  }

  /** After a load, exec can succeed exactly when the layout fits and the stack page is mapped. */
  lemma StackAfterLoad(m: Mem, image: seq<byte>, bias: u64, argv: seq<Bytes>, envp: seq<Bytes>)
    requires LoadOk(m, image, bias)
    ensures CheckHeader(image) == None
    ensures ExecOk(m, image, bias, argv, envp) <==>
            && StackSize(argv, envp) <= PAGE
            && PageOf(STACK_LO) in LoadRanges(m, SegmentRanges(image, bias, Phnum(image))).0.pt
  {
    hide LoadRanges, SegmentRanges, StackSize, CheckHeader, HeadersOk, LoadFits, Phnum;
    LoadRangesExactly(m, SegmentRanges(image, bias, Phnum(image)));
    LoadRangesKeys(m, SegmentRanges(image, bias, Phnum(image)));
  }

  lemma CauseOfLoad(e: ElfError, m: Mem, image: seq<byte>, bias: u64, k: nat,
                    argv: seq<Bytes>, envp: seq<Bytes>, pt: map<nat, Pte>)
    requires if CheckHeader(image).Some? then e == CheckHeader(image).value else Justified(m, image, bias, k, e)
    requires !LoadOk(m, image, bias)
    ensures ExecCause(LoadFailed(e), m, image, bias, k, argv, envp, pt) && !ExecOk(m, image, bias, argv, envp)
  {
    hide Justified, LoadOk, CheckHeader, StackSize;
  }

  lemma CauseOfStack(e: ExecError, m: Mem, image: seq<byte>, bias: u64, k: nat,
                     argv: seq<Bytes>, envp: seq<Bytes>, pt: map<nat, Pte>)
    requires e == StackOverflow ==> StackSize(argv, envp) > PAGE
    requires e == NoMap ==> StackSize(argv, envp) <= PAGE && PageOf(STACK_LO) !in pt
    ensures ExecCause(StackFailed(e), m, image, bias, k, argv, envp, pt)
  {
  }

  // ----- exec and the process's memory invariant -----

  /** No loadable segment of the image has a byte in [lo, hi). */
  ghost predicate SegmentsAvoid(image: seq<byte>, bias: u64, lo: nat, hi: nat) {
    CheckHeader(image) == None ==>
      forall i | LoadableAt(image, Phnum(image), i) ::
        PhdrAt(image, i).Seg(bias) + PhdrAt(image, i).memsz <= lo || hi <= PhdrAt(image, i).Seg(bias)
  }

  lemma {:induction false} RangesAvoid(image: seq<byte>, bias: u64, n: nat, lo: nat, hi: nat)
    requires CheckHeader(image) == None && n <= Phnum(image) && SegmentsAvoid(image, bias, lo, hi)
    requires lo % PAGE == 0 && hi % PAGE == 0
    ensures forall r | r in SegmentRanges(image, bias, n) :: Avoids(r, PageOf(lo), PageOf(hi))
    decreases n
  {
    hide CheckHeader, Phnum, PhdrAt, PhdrInBounds;
    if n > 0 {
      RangesAvoid(image, bias, n - 1, lo, hi);
      if LoadableAt(image, n, n - 1) {
        assert LoadableAt(image, Phnum(image), n - 1);
        PagesAvoid(PhdrAt(image, n - 1), bias, lo, hi);
      }
    }
  }

  lemma PagesAvoid(h: Phdr, bias: u64, lo: nat, hi: nat)
    requires h.memsz != 0 && (h.Seg(bias) + h.memsz <= lo || hi <= h.Seg(bias)) && lo % PAGE == 0 && hi % PAGE == 0
    ensures Avoids(h.Pages(bias), PageOf(lo), PageOf(hi))
  {
    hide Phdr.Seg, Phdr.PageFlags;
  }

  /** An exec whose image has no segment in the brk window, while the old image reaches neither heap nor areas, keeps
      the memory invariant, succeed or fail. */
  lemma ExecKeepsInv(u: User, imageEnd: u64, image: seq<byte>, bias: u64, n: nat)
    requires UserInv(u) && SparesHeap(u, UnmapImage(imageEnd)) && (CheckHeader(image) == None ==> n <= Phnum(image))
    requires SegmentsAvoid(image, bias, USER_BRK_BASE, USER_BRK_LIMIT)
    ensures UserInv(UserMemory.Run(u, [UnmapImage(imageEnd), LoadImage(TriedRanges(image, bias, n))]))
  {
    hide UserInv, SparesHeap, CheckHeader, Do, LoadRanges, SegmentRanges, SegmentsAvoid, Phnum;
    var ranges := TriedRanges(image, bias, n);
    var u1 := Do(u, UnmapImage(imageEnd)).user;
    CallKeepsInv(u, UnmapImage(imageEnd));
    if CheckHeader(image) == None {
      RangesAvoid(image, bias, n, USER_BRK_BASE, USER_BRK_LIMIT);
    }
    AvoidingSpares(u1, ranges);
    CallKeepsInv(u1, LoadImage(ranges));
    TwoCalls(u, imageEnd, ranges);
    LoadCall(u1, ranges);
  }

  lemma LoadCall(u: User, ranges: seq<PageRange>)
    ensures Do(u, LoadImage(ranges)).user == u.(mem := LoadRanges(u.mem, ranges).0)
  {
  }

  lemma EntryOf(image: seq<byte>, bias: u64, k: nat, meta: ElfLoadedMeta)
    requires |image| >= 64 && MetaOf(image, bias, k, meta)
    ensures meta.entry == (Entry(image) + bias) % TWO64
  {
  }

  lemma TwoCalls(u: User, imageEnd: u64, ranges: seq<PageRange>)
    ensures var u1 := Do(u, UnmapImage(imageEnd)).user;
            UserMemory.Run(u, [UnmapImage(imageEnd), LoadImage(ranges)]) == u1.(mem := LoadRanges(u1.mem, ranges).0)
  {
    var calls := [UnmapImage(imageEnd), LoadImage(ranges)];
    var u1 := Do(u, calls[0]).user;
    assert calls[1..] == [LoadImage(ranges)];
    assert calls[1..][1..] == [];
    assert UserMemory.Run(u1, calls[1..]) == Do(u1, LoadImage(ranges)).user;
  }

  lemma LoadedAll(pt: map<nat, Pte>, ram: map<nat, byte>, image: seq<byte>, bias: u64)
    requires |image| >= 64 && LoadedUpTo(pt, ram, image, bias, Phnum(image)) && FileWithinMem(image, Phnum(image))
    ensures AllLoaded(pt, ram, image, bias, Phnum(image))
  {
  }

  /** The metadata of a loaded image fits the 64-bit auxiliary vector. */
  lemma MetaInRange(image: seq<byte>, bias: u64, k: nat, meta: ElfLoadedMeta)
    requires |image| >= 64 && SumsFit(image, bias, Phnum(image)) && MetaOf(image, bias, k, meta)
    ensures MetaFits(meta) && meta.imageEnd < TWO64
  {
    hide PhdrAt, Phoff;
    assert Pow256(8) == TWO64 && Pow256(2) == 65536;
    var rw: Option<nat> :| MetaFor(image, bias, Phnum(image), k, meta.imageEnd, rw, Some(meta.phdr));
    assert LoadableAt(image, Phnum(image), k);
  }

  // ----- execve -----

  /** "/init" with its NUL, the one path exec knows. */
  const INIT_PATH: Bytes := [0x2F, 0x69, 0x6E, 0x69, 0x74, 0]

  datatype Args = Args(argv: seq<Bytes>, envp: seq<Bytes>)

  /** What exec takes from user memory before it touches anything: the path, then the two vectors. */
  function ExecArguments(g: Sight, path: u64, argvPtr: u64, envpPtr: u64): Parsed<Args> {
    if !ReadableRange(g.bounds, path, |INIT_PATH|) then Errno(EFAULT)
    else
      match ReadBytes(g, path, |INIT_PATH|)
      case None => Halt
      case Some(s) =>
        if s != INIT_PATH then Errno(ENOENT)
        else
          match PtrVector(g, argvPtr, 32, 256)
          case Errno(e) => Errno(e)
          case Halt => Halt
          case Ok(argv) =>
            match PtrVector(g, envpPtr, 16, 256)
            case Errno(e) => Errno(e)
            case Halt => Halt
            case Ok(envp) => Ok(Args(argv, envp))
  }

  /** The path decides first: EFAULT when its six bytes may not be read, a halt when one of them is not mapped, ENOENT
      for anything but "/init" and its NUL. Then each vector is what lies at its pointer, none at a null one. */
  lemma ExecArgumentsMean(g: Sight, path: u64, argvPtr: u64, envpPtr: u64, s: Bytes, args: Args)
    requires |s| == 6
    ensures !ReadableRange(g.bounds, path, 6) ==>
              ExecArguments(g, path, argvPtr, envpPtr) == Errno(0x1_0000_0000_0000_0000 - 14)
    ensures ReadableRange(g.bounds, path, 6)
            && (exists a: nat :: path <= a < path + 6 && ReadVirt(g.pt, g.ram, a) == None) ==>
              ExecArguments(g, path, argvPtr, envpPtr) == Halt
    ensures ReadableRange(g.bounds, path, 6) && Lies(g, path, s) && s != [47, 105, 110, 105, 116, 0] ==>
              ExecArguments(g, path, argvPtr, envpPtr) == Errno(0x1_0000_0000_0000_0000 - 2)
    ensures ReadableRange(g.bounds, path, 6) && Lies(g, path, [47, 105, 110, 105, 116, 0]) ==>
              (ExecArguments(g, path, argvPtr, envpPtr) == Ok(args) <==>
               && (if argvPtr == 0 then args.argv == [] else ArgumentsFrom(g, argvPtr, 32, 256, args.argv, 0))
               && (if envpPtr == 0 then args.envp == [] else ArgumentsFrom(g, envpPtr, 16, 256, args.envp, 0)))
  {
    hide ReadableRange, ReadVirt, ReadBytes, PtrVector, ArgumentsFrom;
    var read := ReadBytes(g, path, 6);
    if read.Some? {
      ReadBytesMean(g, path, 6, read.value);
    }
    ReadBytesMean(g, path, 6, s);
    ReadBytesMean(g, path, 6, [47, 105, 110, 105, 116, 0]);
    PtrVectorMeans(g, argvPtr, 32, 256, args.argv);
    PtrVectorMeans(g, envpPtr, 16, 256, args.envp);
  }

  /** With the right path, the first vector to be refused gives the error: argv before envp. */
  lemma ExecArgumentsFail(g: Sight, path: u64, argvPtr: u64, envpPtr: u64, e: u64)
    requires ReadableRange(g.bounds, path, 6) && Lies(g, path, [47, 105, 110, 105, 116, 0])
    ensures ExecArguments(g, path, argvPtr, envpPtr) == Errno(e) <==>
            || (argvPtr != 0 && exists strs :: VectorFails(g, argvPtr, 32, 256, strs, 0, e))
            || (&& (argvPtr != 0 ==> exists argv :: ArgumentsFrom(g, argvPtr, 32, 256, argv, 0))
                && envpPtr != 0 && exists strs :: VectorFails(g, envpPtr, 16, 256, strs, 0, e))
  {
    hide ReadableRange, ReadVirt, ReadBytes, PtrVector, ArgumentsFrom, VectorFails;
    ReadBytesMean(g, path, 6, [47, 105, 110, 105, 116, 0]);
    PtrVectorMeans(g, argvPtr, 32, 256, []);
    PtrVectorMeans(g, envpPtr, 16, 256, []);
    if argvPtr != 0 {
      PtrVectorFails(g, argvPtr, 32, 256, e);
      forall argv ensures PtrVector(g, argvPtr, 32, 256) == Ok(argv) <==> ArgumentsFrom(g, argvPtr, 32, 256, argv, 0) {
        PtrVectorMeans(g, argvPtr, 32, 256, argv);
      }
    }
    if envpPtr != 0 {
      PtrVectorFails(g, envpPtr, 16, 256, e);
    }
  }

  /** These bytes lie at a. */
  ghost predicate Lies(g: Sight, a: nat, s: Bytes) {
    forall x: nat | a <= x < a + |s| :: ReadVirt(g.pt, g.ram, x) == Some(s[x - a])
  }

  datatype Executed =
    | Entered(entry: u64, rsp: u64)  // exec returns 0 with this entry point and stack pointer
    | Returned(errno: u64)
    | Stopped                        // a page fault or an arithmetic panic

  /** The auxiliary vector at p: where the program headers are, by the last segment whose file bytes hold their start,
      their size and number, the page size and the entry point. */
  ghost predicate AuxNames(g: Sight, p: nat, image: seq<byte>, k: nat) {
    && |image| >= 64 && LoadableAt(image, Phnum(image), k) && PhdrAt(image, k).Holds(Phoff(image))
    && (forall i | LoadableAt(image, Phnum(image), i) && k < i :: !PhdrAt(image, i).Holds(Phoff(image)))
    && AuxVector(g, p) ==
       Some([(3, PhdrAt(image, k).vaddr % 0x1_0000_0000_0000_0000 + (Phoff(image) - PhdrAt(image, k).offset)), (4, 56),
             (5, Phnum(image)), (6, 4096), (9, Entry(image) % 0x1_0000_0000_0000_0000)])
  }

  lemma AuxOfImage(g: Sight, v: Bytes, image: seq<byte>, k: nat, meta: ElfLoadedMeta, argv: seq<Bytes>,
                   envp: seq<Bytes>)
    requires |image| >= 64 && MetaOf(image, 0, k, meta)
    requires InitialStack(v, meta, argv, envp) && StackBytes(g.pt, g.ram, v)
    ensures AuxNames(g, 0x401000 + 8 * (|argv| + |envp| + 3), image, k)
  {
    hide InitialStack, StackBytes, PhdrAt, Phoff, Phnum, Entry, AuxVector;
    AuxBuilt(g, v, meta, argv, envp);
    var rw: Option<nat> :| MetaFor(image, 0, Phnum(image), k, meta.imageEnd, rw, Some(meta.phdr));
  }

  /** Every segment clear of the stack page is in memory. */
  ghost predicate SegmentsInPlace(g: Sight, image: seq<byte>) {
    && |image| >= 64
    && forall i | LoadableAt(image, Phnum(image), i) && ClearOfStack(PhdrAt(image, i), 0) ::
         SegmentLoaded(g.pt, g.ram, image, PhdrAt(image, i), 0)
  }

  /** Bad arguments leave the process as it was. Otherwise the old image is gone whatever happens next, unless the
      kernel stops while dropping it; the call succeeds if and only if exec can, and then the image is in memory and
      the new program finds on its stack exactly the vectors that the caller passed. `v` is what is written to the
      stack. */
  method SysExecve(p: Process, image: seq<byte>, path: u64, argvPtr: u64, envpPtr: u64)
      returns (r: Executed, ghost k: nat, ghost n: nat, ghost v: Bytes)
    requires p.space.Valid() && Owned(p.space.View())
    modifies p, p.space, p.space.frames, p.space.frames.bitmap
    ensures p.space.Valid() && Owned(p.space.View())
    ensures ElsewhereKept(p.space.View(), old(p.space.ram), p.space.ram)
    ensures match ExecArguments(old(SightOf(p)), path, argvPtr, envpPtr)
            case Errno(e) => r == Returned(e) && p.View() == old(p.View()) && SightOf(p) == old(SightOf(p))
            case Halt => r == Stopped && p.View() == old(p.View()) && SightOf(p) == old(SightOf(p))
            case Ok(args) =>
              var hi, m := old(p.imageEnd), Dropped(old(p.View()), old(p.imageEnd));
              && (CheckHeader(image) == None ==> n <= Phnum(image))
              && p.View() == UserMemory.Run(old(p.View()), [UnmapImage(Min(hi, LOWER_HALF)),
                                                            LoadImage(TriedRanges(image, 0, n))])
              && (r.Entered? <==> ExecCan(old(p.View()), hi, image, 0, args.argv, args.envp))
              && (r.Returned? ==> r.errno == 0x1_0000_0000_0000_0000 - 8)
              && (r == Stopped <==>
                    hi > LOWER_HALF || (CheckHeader(image) == None && exists i :: Justified(m, image, 0, i, Panic)))
              && (if hi > LOWER_HALF
                  then n == 0 && p.space.ram == old(p.space.ram) && p.Region() == old(p.Region())
                  else && ExecLeaves(old(p.View()), old(SightOf(p)), SightOf(p), image, 0, k, v)
                       && (CheckHeader(image) == None && !LoadOk(m, image, 0) ==>
                             && n == Tried(image, 0, k) && exists e :: Justified(m, image, 0, k, e))
                       && (LoadOk(m, image, 0) ==> n == Phnum(image)))
              && (!r.Entered? ==> v == [])
              && (r.Entered? ==>
                    && CheckHeader(image) == None && r.entry == Entry(image) % TWO64 && r.rsp == 0x401000
                    && |v| == StackSize(args.argv, args.envp)
                    && (FileWithinMem(image, Phnum(image)) ==> SegmentsInPlace(SightOf(p), image))
                    && ReadWord(SightOf(p), r.rsp) == Some(|args.argv|)
                    && PtrVector(SightOf(p), r.rsp + 8, 32, 256) == Ok(args.argv)
                    && PtrVector(SightOf(p), r.rsp + 8 * (|args.argv| + 2), 16, 256) == Ok(args.envp)
                    && AuxNames(SightOf(p), r.rsp + 8 * (|args.argv| + |args.envp| + 3), image, k))
  {
    hide Owned, UserMemory.Run, CheckHeader, Justified, Entry, PtrVector, InitialStack, StackBytes, ReadBytes, ReadWord,
         ReadableRange, StackSize, MetaOf, FreeSet, LoadRanges, Do, FileWithinMem, SegmentLoaded, LoadableAt,
         PhdrAt, ExecOk, TriedRanges, Phnum, AuxNames, ExecLeaves, Tried, LoadOk, ElsewhereKept;
    k, n, v := 0, 0, [];
    NothingWritten(p.space.View(), p.space.ram);
    var g := SightOf(p);
    if !ReadableRange(g.bounds, path, |INIT_PATH|) {
      return Returned(EFAULT), k, n, v;
    }
    var name := ReadBytes(g, path, |INIT_PATH|);
    if name == None {
      return Stopped, k, n, v;
    }
    if name.value != INIT_PATH {
      return Returned(ENOENT), k, n, v;
    }
    var argv := ParseUserPtrvec(g, argvPtr, 32, 256);
    if !argv.Ok? {
      return if argv.Errno? then Returned(argv.code) else Stopped, k, n, v;
    }
    var envp := ParseUserPtrvec(g, envpPtr, 16, 256);
    if !envp.Ok? {
      return if envp.Errno? then Returned(envp.code) else Stopped, k, n, v;
    }
    ParsedFits(g, argvPtr);
    ghost var m := Dropped(p.View(), p.imageEnd);
    ghost var meta;
    var loaded;
    loaded, k, n, meta, v := LoadElfExec(p, image, 0, argv.value, envp.value);
    if loaded == Failure(DropFailed) {
      return Stopped, k, n, v;
    }
    WhyStopped(m, image, k, loaded, argv.value, envp.value, p.space.pt);
    if loaded.Failure? {
      if loaded.error == LoadFailed(Panic) {
        return Stopped, k, n, v;
      }
      return Returned(ENOEXEC), k, n, v;
    }
    EntryOf(image, 0, k, meta.value);
    InitialStackSize(v, meta.value, argv.value, envp.value);
    ExecPassesArguments(g, argvPtr, envpPtr, SightOf(p), v, meta.value);
    AuxOfImage(SightOf(p), v, image, k, meta.value, argv.value, envp.value);
    r := Entered(loaded.value.0, loaded.value.1);
  }

  /** Whether the image could be loaded and whether the kernel stopped, from the result of the load. */
  lemma WhyStopped(m: Mem, image: seq<byte>, k: nat, r: Result<(u64, nat), ExecFailure>, argv: seq<Bytes>,
                   envp: seq<Bytes>, pt: map<nat, Pte>)
    requires r.Success? ==> ExecOk(m, image, 0, argv, envp)
    requires r.Failure? ==>
               && r.error != DropFailed && ExecCause(r.error, m, image, 0, k, argv, envp, pt)
               && (r.error.StackFailed? ==> LoadOk(m, image, 0))
    ensures LoadOk(m, image, 0) <==> r.Success? || r.error.StackFailed?
    ensures r.Failure? && r.error.LoadFailed? && CheckHeader(image) == None ==> Justified(m, image, 0, k, r.error.load)
    ensures r == Failure(LoadFailed(Panic)) <==>
            CheckHeader(image) == None && exists i :: Justified(m, image, 0, i, Panic)
  {
    hide Justified, Phnum, StackSize, LoadOk;
    if r.Failure? && r.error.LoadFailed? {
      if CheckHeader(image) == None {
        JustifiedBlocks(m, image, 0, k, r.error.load);
        forall i | Justified(m, image, 0, i, Panic) ensures r.error.load == Panic {
          JustifiedUnique(m, image, 0, i, Panic, k, r.error.load);
        }
      } else {
        BadHeaderBlocks(m, image, 0);
      }
    } else if CheckHeader(image) == None {
      forall i ensures !Justified(m, image, 0, i, Panic) {
        if Justified(m, image, 0, i, Panic) {
          JustifiedBlocks(m, image, 0, i, Panic);
        }
      }
    }
  }

  lemma ParsedFits(g: Sight, base: nat)
    ensures var r := PtrVector(g, base, 32, 256); r.Ok? ==> |r.value| < Pow256(8)
  {
    hide PtrVector, IsUtf8;
    ParsedSurvives(g, base, 32, 256);
    assert Pow256(8) == TWO64;
  }
}
