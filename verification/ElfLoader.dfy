/**
 `load_elf_mapped` of src/elf.rs: allocate, zero and map every PT_LOAD segment, copy its file bytes through the
 translated address, and collect the metadata of the auxiliary vector. Field offsets are those of Elf64_Ehdr and
 Elf64_Phdr (System V gABI, chapter 5, Program Header).
 */
module ElfLoader {
  import opened Basics
  import opened FrameBitmap
  import opened Paging
  import opened PageRanges
  import opened UserMemory
  import opened AddressSpace

  datatype ElfError =
    | Truncated | BadElf | NotExecOrDyn | NotX86 | PhdrSize | PhdrOob | UnsupportedAlign
    | FrameOom | MapToFailed | SegmentFileOob | Untranslated | NoPhdrInLoad
    | Panic  // an address or offset sum that overflows or is not canonical; the kernel stops

  datatype ElfLoadedMeta =
    ElfLoadedMeta(entry: u64, phdr: nat, phnum: nat, phent: nat, imageEnd: nat, rwMin: nat)

  const PHENT: nat := 56

  // ----- reading the headers -----

  function Field(image: seq<byte>, off: nat, n: nat): nat
    requires off + n <= |image|
  {
    FromLe(image[off..off + n])
  }

  function CheckHeader(image: seq<byte>): (e: Option<ElfError>)
    ensures e == None ==> |image| >= 64
  {
    if |image| < 64 then Some(Truncated)
    else if image[0..4] != [0x7F, 0x45, 0x4C, 0x46] || image[4] != 2 || image[5] != 1 then Some(BadElf)
    else if Field(image, 16, 2) != 2 && Field(image, 16, 2) != 3 then Some(NotExecOrDyn)
    else if Field(image, 18, 2) != 0x3E then Some(NotX86)
    else if Field(image, 54, 2) != PHENT then Some(PhdrSize)
    else None
  }

  function Entry(image: seq<byte>): nat requires |image| >= 64 { Field(image, 24, 8) }

  function Phoff(image: seq<byte>): nat requires |image| >= 64 { Field(image, 32, 8) }

  function Phnum(image: seq<byte>): nat requires |image| >= 64 { Field(image, 56, 2) }

  datatype Phdr = Phdr(kind: nat, flags: nat, offset: nat, vaddr: nat, filesz: nat, memsz: nat, align: nat) {
    /** A PT_LOAD segment that occupies memory. */
    predicate Loadable() {
      kind == 1 && memsz != 0
    }

    function Seg(bias: u64): nat {
      (vaddr + bias) % TWO64
    }

    function PageFlags(): Flags {
      Flags(flags / 2 % 2 == 1, flags % 2 != 1)
    }

    function Pages(bias: u64): PageRange
      requires memsz != 0
    {
      var seg := Seg(bias);
      PageRange(PageOf(seg), PageOf(seg + memsz - 1) - PageOf(seg) + 1, PageFlags())
    }

    /** The file span of the segment contains the file offset `phoff`. */
    predicate Holds(phoff: nat) {
      offset <= phoff < Min(offset + filesz, TWO64 - 1)
    }

    /** The sums the loader forms before it maps the segment are in range. */
    predicate Fits(bias: u64, phoff: nat) {
      && (Holds(phoff) ==> Seg(bias) + (phoff - offset) < TWO64)
      && Canonical(Seg(bias)) && Canonical(Seg(bias) + memsz)
      && (memsz > 0 ==> Canonical(Seg(bias) + memsz - 1))
    }
  }

  predicate PhdrInBounds(image: seq<byte>, i: nat) requires |image| >= 64 {
    Phoff(image) + i * PHENT + PHENT <= |image|
  }

  function PhdrAt(image: seq<byte>, i: nat): Phdr
    requires |image| >= 64 && PhdrInBounds(image, i)
  {
    var off := Phoff(image) + i * PHENT;
    Phdr(Field(image, off, 4), Field(image, off + 4, 4), Field(image, off + 8, 8), Field(image, off + 16, 8),
         Field(image, off + 32, 8), Field(image, off + 40, 8), Field(image, off + 48, 8))
  }

  /** The offsets of the first n headers and the sums formed from them are in range. */
  ghost predicate SumsFit(image: seq<byte>, bias: u64, n: nat)
    requires |image| >= 64
  {
    && (n > 0 ==> Phoff(image) + n * PHENT < TWO64)
    && forall i | LoadableAt(image, n, i) :: PhdrAt(image, i).Fits(bias, Phoff(image))
  }

  /** The page ranges of the loadable headers among the first n, in order. */
  ghost function SegmentRanges(image: seq<byte>, bias: u64, n: nat): seq<PageRange>
    requires |image| >= 64
  {
    if n == 0 then []
    else
      SegmentRanges(image, bias, n - 1)
      + (if LoadableAt(image, n, n - 1) then [PhdrAt(image, n - 1).Pages(bias)] else [])
  }

  // ----- exactly when an image can be loaded -----

  /** Header i can be read and its sums are in range. */
  ghost predicate HeaderOk(image: seq<byte>, bias: u64, i: nat)
    requires |image| >= 64
  {
    && Phoff(image) + i * PHENT + PHENT < TWO64 && PhdrInBounds(image, i)
    && (PhdrAt(image, i).kind == 1 ==> PhdrAt(image, i).align == 0 || PhdrAt(image, i).align == PAGE)
    && (PhdrAt(image, i).Loadable() ==> PhdrAt(image, i).Fits(bias, Phoff(image)))
  }

  /** The file bytes of the segment exist and all lie at canonical addresses of the given pages. */
  ghost predicate FileOk(image: seq<byte>, bias: u64, h: Phdr, pages: set<nat>) {
    && (h.filesz > 0 ==> h.offset + h.filesz <= |image|)
    && forall va: nat | h.Seg(bias) <= va < h.Seg(bias) + h.filesz :: Canonical(va) && PageOf(va) in pages
  }

  /** The pages mapped when the bytes of segment i are copied. */
  ghost function PagesAt(m: Mem, image: seq<byte>, bias: u64, i: nat): set<nat>
    requires |image| >= 64
  {
    m.pt.Keys + PagesOf(SegmentRanges(image, bias, i + 1))
  }

  ghost predicate HeadersOk(m: Mem, image: seq<byte>, bias: u64, n: nat)
    requires |image| >= 64
  {
    && (forall i: nat | i < n :: HeaderOk(image, bias, i))
    && (forall i | LoadableAt(image, n, i) :: FileOk(image, bias, PhdrAt(image, i), PagesAt(m, image, bias, i)))
  }

  /** The image can be loaded into memory m: every header is in order, all segments fit, and one of them holds the start
      of the header table. */
  ghost predicate LoadOk(m: Mem, image: seq<byte>, bias: u64) {
    && CheckHeader(image) == None
    && HeadersOk(m, image, bias, Phnum(image))
    && LoadFits(m, SegmentRanges(image, bias, Phnum(image)))
    && exists i :: LoadableAt(image, Phnum(image), i) && PhdrAt(image, i).Holds(Phoff(image))
  }

  // ----- what a loaded image is -----

  /** File bytes, then zeros up to p_memsz, on pages with the segment's protection. */
  ghost predicate SegmentLoaded(pt: map<nat, Pte>, ram: map<nat, byte>, image: seq<byte>, h: Phdr, bias: u64) {
    && (h.filesz > 0 ==> h.offset + h.filesz <= |image|)
    && forall va: nat | h.Seg(bias) <= va < h.Seg(bias) + h.memsz ::
         var j := va - h.Seg(bias);
         ReadVirt(pt, ram, va) == Some(if j < h.filesz then image[h.offset + j] else 0)
  }

  ghost predicate SegmentMapped(pt: map<nat, Pte>, h: Phdr, bias: u64)
    requires h.memsz != 0
  {
    var r := h.Pages(bias);
    forall p | InRange(p, r.first, r.pages) :: p in pt && pt[p].flags == r.flags
  }

  /** The loadable headers among the first n. */
  ghost predicate LoadableAt(image: seq<byte>, n: nat, i: nat)
    requires |image| >= 64
  {
    i < n && PhdrInBounds(image, i) && PhdrAt(image, i).Loadable()
  }

  ghost predicate FileWithinMem(image: seq<byte>, n: nat)
    requires |image| >= 64
  {
    forall i | LoadableAt(image, n, i) :: PhdrAt(image, i).filesz <= PhdrAt(image, i).memsz
  }

  ghost predicate AllLoaded(pt: map<nat, Pte>, ram: map<nat, byte>, image: seq<byte>, bias: u64, n: nat)
    requires |image| >= 64
  {
    forall i | LoadableAt(image, n, i) :: SegmentLoaded(pt, ram, image, PhdrAt(image, i), bias)
  }

  ghost predicate AllMapped(pt: map<nat, Pte>, image: seq<byte>, bias: u64, n: nat)
    requires |image| >= 64
  {
    forall i | LoadableAt(image, n, i) :: SegmentMapped(pt, PhdrAt(image, i), bias)
  }

  /** `image_end` is the largest segment end. */
  ghost predicate IsImageEnd(image: seq<byte>, bias: u64, n: nat, e: nat)
    requires |image| >= 64
  {
    && (forall i | LoadableAt(image, n, i) :: PhdrAt(image, i).Seg(bias) + PhdrAt(image, i).memsz <= e)
    && (e == 0 || exists i :: LoadableAt(image, n, i) && PhdrAt(image, i).Seg(bias) + PhdrAt(image, i).memsz == e)
  }

  /** `rw_min` is the lowest start of a writable segment, if there is one. */
  ghost predicate IsRwMin(image: seq<byte>, bias: u64, n: nat, lo: Option<nat>)
    requires |image| >= 64
  {
    && (forall i | LoadableAt(image, n, i) && PhdrAt(image, i).PageFlags().writable ::
          lo.Some? && lo.value <= PhdrAt(image, i).Seg(bias))
    && (lo.Some? ==> exists i :: LoadableAt(image, n, i) && PhdrAt(image, i).PageFlags().writable
                                 && PhdrAt(image, i).Seg(bias) == lo.value)
  }

  /** `phdr_va` comes from the last segment whose file span holds the start of the header table. */
  ghost predicate IsPhdrVa(image: seq<byte>, bias: u64, n: nat, k: nat, va: Option<nat>)
    requires |image| >= 64
  {
    && (va == None ==> forall i | LoadableAt(image, n, i) :: !PhdrAt(image, i).Holds(Phoff(image)))
    && (va.Some? ==>
          && LoadableAt(image, n, k) && PhdrAt(image, k).Holds(Phoff(image))
          && (forall i | LoadableAt(image, n, i) && k < i :: !PhdrAt(image, i).Holds(Phoff(image)))
          && va.value == PhdrAt(image, k).Seg(bias) + (Phoff(image) - PhdrAt(image, k).offset))
  }

  // ----- what lies in memory after the first headers -----

  /** va is one of the first c file bytes of the segment, and that byte is in the file. */
  predicate InFile(image: seq<byte>, h: Phdr, bias: u64, c: nat, va: nat) {
    h.Seg(bias) <= va < h.Seg(bias) + c && h.offset + va - h.Seg(bias) < |image|
  }

  /** The file byte that the first n headers leave at va, the last of them that reaches it deciding. */
  ghost function FileByte(image: seq<byte>, bias: u64, n: nat, va: nat): Option<byte>
    requires |image| >= 64
  {
    if n == 0 then None
    else if LoadableAt(image, n, n - 1) && InFile(image, PhdrAt(image, n - 1), bias, PhdrAt(image, n - 1).filesz, va)
    then Some(image[PhdrAt(image, n - 1).offset + va - PhdrAt(image, n - 1).Seg(bias)])
    else FileByte(image, bias, n - 1, va)
  }

  /** The same with the first c file bytes of header n on top. */
  ghost function FileByteTo(image: seq<byte>, bias: u64, n: nat, c: nat, va: nat): Option<byte>
    requires |image| >= 64
  {
    if PhdrInBounds(image, n) && InFile(image, PhdrAt(image, n), bias, c, va)
    then Some(image[PhdrAt(image, n).offset + va - PhdrAt(image, n).Seg(bias)])
    else FileByte(image, bias, n, va)
  }

  /** What a byte of a page reads before anything is copied to it: as before on an old page, zero on a new one. */
  ghost function Cleared(pt: map<nat, Pte>, ram: map<nat, byte>, va: nat): Option<byte> {
    if PageOf(va) in pt then ReadVirt(pt, ram, va) else Some(0)
  }

  /** Every page of pt' reads so. */
  ghost predicate ClearedView(pt: map<nat, Pte>, ram: map<nat, byte>, pt': map<nat, Pte>, ram': map<nat, byte>) {
    forall va: nat | PageOf(va) in pt' :: ReadVirt(pt', ram', va) == Cleared(pt, ram, va)
  }

  /** Memory holds the file bytes of the first n headers and c more, all of them mapped, and every other byte is as it
      was, or zero on a page that is new. */
  ghost predicate Written(pt: map<nat, Pte>, ram: map<nat, byte>, pt': map<nat, Pte>, ram': map<nat, byte>,
                          image: seq<byte>, bias: u64, n: nat, c: nat)
    requires |image| >= 64
  {
    && (forall va: nat ::
          var b := FileByteTo(image, bias, n, c, va);
          if PageOf(va) in pt' then ReadVirt(pt', ram', va) == if b.Some? then b else Cleared(pt, ram, va)
          else b == None)
    && (forall p | p in pt :: p in pt')
  }

  /** The last header that reaches a byte decides it, and a byte that no header reaches is nobody's. */
  lemma {:induction false} FileByteIs(image: seq<byte>, bias: u64, n: nat, va: nat)
    requires |image| >= 64
    ensures FileByte(image, bias, n, va) == None <==>
            forall i | LoadableAt(image, n, i) :: !InFile(image, PhdrAt(image, i), bias, PhdrAt(image, i).filesz, va)
    ensures forall i: nat | && LoadableAt(image, n, i)
                            && InFile(image, PhdrAt(image, i), bias, PhdrAt(image, i).filesz, va)
                            && (forall x | LoadableAt(image, n, x) && i < x ::
                                  !InFile(image, PhdrAt(image, x), bias, PhdrAt(image, x).filesz, va)) ::
              FileByte(image, bias, n, va) == Some(image[PhdrAt(image, i).offset + va - PhdrAt(image, i).Seg(bias)])
    decreases n
  {
    hide PhdrAt, PhdrInBounds, InFile, Phdr.Seg;
    if n > 0 {
      FileByteIs(image, bias, n - 1, va);
      assert forall i :: LoadableAt(image, n - 1, i) ==> LoadableAt(image, n, i);
      assert forall i :: LoadableAt(image, n, i) ==> LoadableAt(image, n - 1, i) || i == n - 1;
    }
  }

  // ----- where a load that fails stops -----

  /** Byte j of the file part is in the file, and its address is canonical and on one of these pages. */
  ghost predicate CanCopy(image: seq<byte>, offset: nat, seg: nat, pages: set<nat>, j: nat) {
    offset + j < |image| && Canonical(seg + j) && PageOf(seg + j) in pages
  }

  /** The first byte from j on that cannot be copied, or `filesz`. */
  ghost function Copied(image: seq<byte>, offset: nat, filesz: nat, seg: nat, pages: set<nat>, j: nat): (c: nat)
    requires j <= filesz
    ensures j <= c <= filesz && (c < filesz ==> !CanCopy(image, offset, seg, pages, c))
    ensures forall i | j <= i < c :: CanCopy(image, offset, seg, pages, i)
    decreases filesz - j
  {
    if j < filesz && CanCopy(image, offset, seg, pages, j) then Copied(image, offset, filesz, seg, pages, j + 1) else j
  }

  /** The error at the first byte that cannot be copied, if there is one. */
  ghost function CopyError(image: seq<byte>, offset: nat, filesz: nat, seg: nat, pages: set<nat>): Option<ElfError> {
    var c := Copied(image, offset, filesz, seg, pages, 0);
    if c == filesz then None
    else if offset + c >= |image| then Some(SegmentFileOob)
    else if !Canonical(seg + c) then Some(Panic)
    else Some(Untranslated)
  }

  lemma CopiedAll(image: seq<byte>, bias: u64, h: Phdr, pages: set<nat>)
    ensures CopyError(image, h.offset, h.filesz, h.Seg(bias), pages) == None <==> FileOk(image, bias, h, pages)
  {
    hide Phdr.Seg;
    var seg := h.Seg(bias);
    var c := Copied(image, h.offset, h.filesz, seg, pages, 0);
    if c == h.filesz {
      forall va: nat | seg <= va < seg + h.filesz ensures Canonical(va) && PageOf(va) in pages {
        assert CanCopy(image, h.offset, seg, pages, va - seg);
      }
      assert h.filesz > 0 ==> CanCopy(image, h.offset, seg, pages, h.filesz - 1);
    }
  }

  /** The loop gets to header i: the headers before it are in order, and their segments are mapped and copied. */
  ghost predicate Reached(m: Mem, image: seq<byte>, bias: u64, i: nat)
    requires |image| >= 64
  {
    HeadersOk(m, image, bias, i) && LoadRanges(m, SegmentRanges(image, bias, i)).1 == Mapped
  }

  /** Header i is in order, takes memory, and mapping its pages ends this way. */
  ghost predicate MapsTo(m: Mem, image: seq<byte>, bias: u64, i: nat, r: MapResult)
    requires |image| >= 64
  {
    && i < Phnum(image) && HeaderOk(image, bias, i) && LoadableAt(image, Phnum(image), i)
    && LoadRanges(m, SegmentRanges(image, bias, i + 1)).1 == r
  }

  /** What copying the file bytes of header i says. */
  ghost function CopyErrorAt(m: Mem, image: seq<byte>, bias: u64, i: nat): Option<ElfError>
    requires |image| >= 64 && PhdrInBounds(image, i)
  {
    var h := PhdrAt(image, i);
    CopyError(image, h.offset, h.filesz, h.Seg(bias), PagesAt(m, image, bias, i))
  }

  /** How many file bytes of header i are copied when the load stops there. */
  ghost function CopiedAt(m: Mem, image: seq<byte>, bias: u64, i: nat): nat
    requires |image| >= 64
  {
    if MapsTo(m, image, bias, i, Mapped) then
      var h := PhdrAt(image, i);
      Copied(image, h.offset, h.filesz, h.Seg(bias), PagesAt(m, image, bias, i), 0)
    else 0
  }

  /** How many headers have had their pages tried when the load stops at header i. */
  ghost function Tried(image: seq<byte>, bias: u64, i: nat): nat
    requires |image| >= 64
  {
    if i < Phnum(image) && HeaderOk(image, bias, i) then i + 1 else i
  }

  /** The load into memory m stops at header i with error e; `NoPhdrInLoad` comes after the last header. */
  ghost predicate Justified(m: Mem, image: seq<byte>, bias: u64, i: nat, e: ElfError)
    requires |image| >= 64
  {
    && Reached(m, image, bias, i)
    && var addressed := i < Phnum(image) && Phoff(image) + i * PHENT + PHENT < TWO64;
       match e
       case PhdrOob => addressed && !PhdrInBounds(image, i)
       case UnsupportedAlign =>
         && addressed && PhdrInBounds(image, i) && PhdrAt(image, i).kind == 1
         && PhdrAt(image, i).align != 0 && PhdrAt(image, i).align != PAGE
       case FrameOom => MapsTo(m, image, bias, i, NoFrame)
       case MapToFailed => MapsTo(m, image, bias, i, MapFailed)
       case SegmentFileOob => MapsTo(m, image, bias, i, Mapped) && CopyErrorAt(m, image, bias, i) == Some(e)
       case Untranslated => MapsTo(m, image, bias, i, Mapped) && CopyErrorAt(m, image, bias, i) == Some(e)
       case Panic =>
         || (i < Phnum(image) && !addressed)
         || (addressed && LoadableAt(image, Phnum(image), i) && !PhdrAt(image, i).Fits(bias, Phoff(image))
             && (PhdrAt(image, i).align == 0 || PhdrAt(image, i).align == PAGE))
         || (MapsTo(m, image, bias, i, Mapped) && CopyErrorAt(m, image, bias, i) == Some(e))
       case NoPhdrInLoad =>
         i == Phnum(image) && forall x | LoadableAt(image, Phnum(image), x) :: !PhdrAt(image, x).Holds(Phoff(image))
       case _ => false
  }

  /** Where a load stops, no further header is reached. */
  lemma JustifiedStops(m: Mem, image: seq<byte>, bias: u64, i: nat, e: ElfError, j: nat)
    requires |image| >= 64 && Justified(m, image, bias, i, e) && i < j <= Phnum(image)
    ensures !Reached(m, image, bias, j)
  {
    hide PhdrAt, PhdrInBounds, Phnum, SegmentRanges, LoadRanges, Phoff, Phdr.Fits, Phdr.Holds, Phdr.Seg, PagesAt,
         FileOk, CopyError;
    if Reached(m, image, bias, j) {
      assert HeaderOk(image, bias, i);
      if LoadRanges(m, SegmentRanges(image, bias, i + 1)).1 != Mapped {
        EarlierSegments(m, image, bias, i + 1, j);
      }
      if LoadableAt(image, Phnum(image), i) {
        assert LoadableAt(image, j, i);
        CopiedAll(image, bias, PhdrAt(image, i), PagesAt(m, image, bias, i));
      }
    }
  }

  /** The header at which a load stops and its error are determined by image and memory. */
  lemma JustifiedUnique(m: Mem, image: seq<byte>, bias: u64, i: nat, e: ElfError, j: nat, f: ElfError)
    requires |image| >= 64 && Justified(m, image, bias, i, e) && Justified(m, image, bias, j, f)
    ensures i == j && e == f
  {
    hide PhdrAt, PhdrInBounds, Phnum, SegmentRanges, LoadRanges, Phoff, Phdr.Fits, Phdr.Holds, Phdr.Seg, PagesAt,
         HeadersOk, CopyErrorAt;
    if i < j {
      JustifiedStops(m, image, bias, i, e, j);
    } else if j < i {
      JustifiedStops(m, image, bias, j, f, i);
    }
  }

  /** Each of these circumstances rules the load out. */
  lemma JustifiedBlocks(m: Mem, image: seq<byte>, bias: u64, i: nat, e: ElfError)
    requires |image| >= 64 && Justified(m, image, bias, i, e)
    ensures !LoadOk(m, image, bias)
  {
    hide PhdrAt, PhdrInBounds, Phnum, LoadFits, SegmentRanges, LoadRanges, CheckHeader, Phoff, Phdr.Fits, Phdr.Holds,
         PagesAt, HeadersOk, CopyErrorAt;
    if i < Phnum(image) {
      JustifiedStops(m, image, bias, i, e, Phnum(image));
      LoadRangesExactly(m, SegmentRanges(image, bias, Phnum(image)));
    }
  }

  /** If the first segments cannot be mapped, neither can more of them. */
  lemma {:induction false} EarlierSegments(m: Mem, image: seq<byte>, bias: u64, i: nat, n: nat)
    requires |image| >= 64 && i <= n && LoadRanges(m, SegmentRanges(image, bias, i)).1 != Mapped
    ensures LoadRanges(m, SegmentRanges(image, bias, n)).1 != Mapped
    decreases n
  {
    hide LoadRanges, PhdrAt, PhdrInBounds;
    if i < n {
      EarlierSegments(m, image, bias, i, n - 1);
      LoadPrefix(m, SegmentRanges(image, bias, n - 1),
                 if LoadableAt(image, n, n - 1) then [PhdrAt(image, n - 1).Pages(bias)] else []);
      assert SegmentRanges(image, bias, n - 1) + [] == SegmentRanges(image, bias, n - 1);
    }
  }

  lemma ReachedEarlier(m: Mem, image: seq<byte>, bias: u64, i: nat, k: nat)
    requires |image| >= 64 && Reached(m, image, bias, k) && i <= k
    ensures Reached(m, image, bias, i)
  {
    hide PhdrAt, PhdrInBounds, SegmentRanges, LoadRanges, HeaderOk, FileOk, PagesAt;
    assert forall j :: LoadableAt(image, i, j) ==> LoadableAt(image, k, j);
    if LoadRanges(m, SegmentRanges(image, bias, i)).1 != Mapped {
      EarlierSegments(m, image, bias, i, k);
    }
  }

  /** The last header from i on that the load gets to, or the number of headers. */
  ghost function StopsAt(m: Mem, image: seq<byte>, bias: u64, i: nat): nat
    requires |image| >= 64 && i <= Phnum(image)
    decreases Phnum(image) - i
  {
    if i == Phnum(image) || !Reached(m, image, bias, i + 1) then i else StopsAt(m, image, bias, i + 1)
  }

  /** That is where a load that fails stops. */
  lemma {:induction false} StopsWhereJustified(m: Mem, image: seq<byte>, bias: u64, i: nat, k: nat, e: ElfError)
    requires |image| >= 64 && Justified(m, image, bias, k, e) && i <= k
    ensures k <= Phnum(image) && StopsAt(m, image, bias, i) == k
    decreases k - i
  {
    hide Justified, Reached, Phnum;
    JustifiedBounded(m, image, bias, k, e);
    if i < k {
      ReachedEarlier(m, image, bias, i + 1, k);
      StopsWhereJustified(m, image, bias, i + 1, k, e);
    } else if k < Phnum(image) {
      JustifiedStops(m, image, bias, k, e, k + 1);
    }
  }

  lemma JustifiedBounded(m: Mem, image: seq<byte>, bias: u64, k: nat, e: ElfError)
    requires |image| >= 64 && Justified(m, image, bias, k, e)
    ensures k <= Phnum(image) && Reached(m, image, bias, k)
  {
    hide Reached, PhdrAt, PhdrInBounds, Phnum, Phoff, CopyErrorAt, HeaderOk, LoadRanges, SegmentRanges, Phdr.Fits,
         Phdr.Holds, Phdr.Loadable;
  }

  // ----- the loader -----

  ghost predicate SameThrough(pt: map<nat, Pte>, ram: map<nat, byte>, ram': map<nat, byte>) {
    forall va: nat | PageOf(va) in pt :: ReadVirt(pt, ram', va) == ReadVirt(pt, ram, va)
  }

  ghost predicate IsZero(ram: map<nat, byte>, frame: nat) {
    forall a: nat | frame * PAGE <= a < frame * PAGE + PAGE :: a in ram && ram[a] == 0
  }

  /** No byte outside the frame changes. */
  ghost predicate OnlyFrame(f: nat, ram: map<nat, byte>, ram': map<nat, byte>) {
    ram'.Keys == ram.Keys && forall a: nat | a in ram && a / PAGE != f :: ram'[a] == ram[a]
  }

  /** Allocate and zero a frame, before it is mapped; no mapped byte changes. */
  method AllocateZeroed(s: Space) returns (f: Option<nat>)
    requires s.Valid() && Owned(s.View())
    modifies s`ram, s.frames, s.frames.bitmap
    ensures s.Valid() && SameThrough(s.pt, old(s.ram), s.ram)
    ensures old(s.frames.Free()) == {} ==> f == None && s.frames.Free() == {}
    ensures old(s.frames.Free()) != {} ==>
              && f == Some(Lowest(old(s.frames.Free()))) && s.frames.Free() == old(s.frames.Free()) - {f.value}
              && IsZero(s.ram, f.value) && OnlyFrame(f.value, old(s.ram), s.ram)
    ensures f == None ==> s.ram == old(s.ram)
  {
    hide Owned, Universe, ReadVirt, FreeSet;
    ghost var before := s.View();
    f := s.frames.Allocate();
    if f.Some? {
      FreeFrameUnmapped(before, f.value);
      s.ZeroFrame(f.value);
    }
  }

  /** Allocate, zero, map one page. A page that is new reads as zero and no mapped byte changes. */
  method MapOneZeroed(s: Space, page: nat, flags: Flags) returns (res: MapResult)
    requires s.Valid() && Owned(s.View())
    modifies s, s.frames, s.frames.bitmap
    ensures s.Valid() && Owned(s.View())
    ensures (s.View(), res) == AllocAndMap(old(s.View()), page, flags)
    ensures SameView(old(s.pt), old(s.ram), s.pt, s.ram)
    ensures ClearedView(old(s.pt), old(s.ram), s.pt, s.ram)
    ensures Confined(old(s.View()), old(s.ram), s.View(), s.ram)
  {
    hide Owned, Universe, MapTo, SameView, ClearedView, FreeSet, SameThrough, IsZero, Confined, OnlyFrame;
    ghost var before, ram0 := s.View(), s.ram;
    AllocAndMapKeeps(before, page, flags);
    AllocAndMapPages(before, page, flags);
    var f := AllocateZeroed(s);
    UnchangedView(before.pt, ram0, s.ram);
    if f == None {
      ConfinedQuietly(before, s.View(), s.ram);
      return NoFrame;
    }
    var ok := s.MapTo(page, f.value, flags);
    if !ok {
      s.lost := s.lost + {f.value};
      ZeroedConfined(before, s.View(), f.value, ram0, s.ram);
      return MapFailed;
    }
    ZeroedConfined(before, s.View(), f.value, ram0, s.ram);
    ZeroedPageView(before.pt, ram0, s.ram, page, Pte(f.value, flags));
    res := Mapped;
  }

  /** Zeroing a frame that is taken from the pool and then mapped or lost. */
  lemma ZeroedConfined(m: Mem, m': Mem, f: nat, ram: map<nat, byte>, ram': map<nat, byte>)
    requires Balanced(m, m') && f in m.free && m'.free <= m.free && OnlyFrame(f, ram, ram')
    requires f in m'.lost || exists p :: p in m'.pt && m'.pt[p].frame == f
    ensures Confined(m, ram, m', ram')
  {
    hide Universe;
    assert f in Universe(m) by {
      FreeInPlay(m, f);
    }
    assert f !in m'.free;
  }

  lemma FreeInPlay(m: Mem, f: nat)
    requires f in m.free
    ensures f in Universe(m)
  {
  }

  lemma UnchangedView(pt: map<nat, Pte>, ram: map<nat, byte>, ram': map<nat, byte>)
    requires SameThrough(pt, ram, ram')
    ensures SameView(pt, ram, pt, ram') && ClearedView(pt, ram, pt, ram')
  {
    hide ReadVirt;
  }

  lemma ZeroedPageView(pt: map<nat, Pte>, ram: map<nat, byte>, ram': map<nat, byte>, page: nat, pte: Pte)
    requires page !in pt && SameThrough(pt, ram, ram') && IsZero(ram', pte.frame)
    ensures SameView(pt, ram, pt[page := pte], ram') && ClearedView(pt, ram, pt[page := pte], ram')
  {
  }

  /** The page loop over one segment. */
  method MapZeroed(s: Space, r: PageRange) returns (res: MapResult)
    requires s.Valid() && Owned(s.View())
    modifies s, s.frames, s.frames.bitmap
    ensures s.Valid() && Owned(s.View())
    ensures (s.View(), res) == MapRange(old(s.View()), r.first, r.pages, r.flags, false)
    ensures SameView(old(s.pt), old(s.ram), s.pt, s.ram)
    ensures ClearedView(old(s.pt), old(s.ram), s.pt, s.ram)
    ensures Confined(old(s.View()), old(s.ram), s.View(), s.ram)
  {
    hide Owned, Universe, AllocAndMap, ReadVirt, Confined;
    ConfinedQuietly(s.View(), s.View(), s.ram);
    var i := 0;
    while i < r.pages
      invariant i <= r.pages && s.Valid() && Owned(s.View())
      invariant MapRange(old(s.View()), r.first, r.pages, r.flags, false)
             == MapRange(s.View(), r.first + i, r.pages - i, r.flags, false)
      invariant SameView(old(s.pt), old(s.ram), s.pt, s.ram)
      invariant ClearedView(old(s.pt), old(s.ram), s.pt, s.ram)
      invariant Confined(old(s.View()), old(s.ram), s.View(), s.ram)
    {
      ghost var m1, ram1 := s.View(), s.ram;
      res := MapOneZeroed(s, r.first + i, r.flags);
      ConfinedTwice(old(s.View()), old(s.ram), m1, ram1, s.View(), s.ram);
      if res != Mapped {
        return;
      }
      i := i + 1;
    }
    res := Mapped;
  }

  /** The first c bytes from `offset` lie at `seg`, on mapped pages, and every other mapped byte is as it was. */
  ghost predicate CopiedTo(pt: map<nat, Pte>, ram: map<nat, byte>, ram': map<nat, byte>, image: seq<byte>, offset: nat,
                           seg: nat, c: nat) {
    && (c > 0 ==> offset + c <= |image|)
    && (forall va: nat | seg <= va < seg + c :: PageOf(va) in pt)
    && forall va: nat | PageOf(va) in pt ::
         ReadVirt(pt, ram', va) ==
         if seg <= va < seg + c then Some(image[offset + va - seg]) else ReadVirt(pt, ram, va)
  }

  lemma CopyStart(pt: map<nat, Pte>, ram: map<nat, byte>, image: seq<byte>, offset: nat, seg: nat)
    ensures CopiedTo(pt, ram, ram, image, offset, seg, 0)
  {
  }

  lemma CopyStep(pt: map<nat, Pte>, ram: map<nat, byte>, ram1: map<nat, byte>, ram2: map<nat, byte>, image: seq<byte>,
                 offset: nat, seg: nat, j: nat)
    requires CopiedTo(pt, ram, ram1, image, offset, seg, j) && offset + j < |image| && PageOf(seg + j) in pt
    requires ReadVirt(pt, ram2, seg + j) == Some(image[offset + j])
    requires forall v: nat | v != seg + j && PageOf(v) in pt :: ReadVirt(pt, ram2, v) == ReadVirt(pt, ram1, v)
    ensures CopiedTo(pt, ram, ram2, image, offset, seg, j + 1)
  {
    hide ReadVirt;
  }

  /** The byte loop: copy file bytes to their translated addresses, up to the first that cannot be copied. */
  method CopyFileBytes(s: Space, image: seq<byte>, offset: nat, filesz: nat, seg: nat) returns (err: Option<ElfError>)
    requires s.Valid() && Owned(s.View())
    modifies s`ram
    ensures s.Valid()
    ensures err == CopyError(image, offset, filesz, seg, s.pt.Keys)
    ensures CopiedTo(s.pt, old(s.ram), s.ram, image, offset, seg, Copied(image, offset, filesz, seg, s.pt.Keys, 0))
    ensures Confined(s.View(), old(s.ram), s.View(), s.ram)
  {
    hide Owned, Universe, Canonical, ReadVirt, FreeSet, PageOf, PhysOf, Confined, CopiedTo;
    ConfinedQuietly(s.View(), s.View(), s.ram);
    CopyStart(s.pt, s.ram, image, offset, seg);
    var j := 0;
    while j < filesz
      invariant Confined(s.View(), old(s.ram), s.View(), s.ram)
      invariant j <= filesz && s.Valid() && CopiedTo(s.pt, old(s.ram), s.ram, image, offset, seg, j)
      invariant Copied(image, offset, filesz, seg, s.pt.Keys, 0) == Copied(image, offset, filesz, seg, s.pt.Keys, j)
    {
      if offset + j >= |image| {
        return Some(SegmentFileOob);
      }
      if !Canonical(seg + j) {
        return Some(Panic);
      }
      ghost var before := s.ram;
      var ok := s.WriteByte(seg + j, image[offset + j]);
      if !ok {
        return Some(Untranslated);
      }
      ConfinedTwice(s.View(), old(s.ram), s.View(), before, s.View(), s.ram);
      CopyStep(s.pt, old(s.ram), before, s.ram, image, offset, seg, j);
      j := j + 1;
    }
    err := None;
  }

  /** What one loadable segment leaves in memory: file bytes as far as they were copied, zeros on the rest of its new
      pages, and everything else as it was. */
  ghost predicate SegmentBytes(pt: map<nat, Pte>, ram: map<nat, byte>, pt': map<nat, Pte>, ram': map<nat, byte>,
                               image: seq<byte>, h: Phdr, bias: u64, c: nat) {
    && (c > 0 ==> h.offset + c <= |image|)
    && (forall va: nat | h.Seg(bias) <= va < h.Seg(bias) + c :: PageOf(va) in pt')
    && forall va: nat | PageOf(va) in pt' ::
         ReadVirt(pt', ram', va) ==
         if h.Seg(bias) <= va < h.Seg(bias) + c then Some(image[h.offset + va - h.Seg(bias)]) else Cleared(pt, ram, va)
  }

  /** One iteration of the program header loop, for a loadable segment. */
  method LoadSegment(s: Space, image: seq<byte>, h: Phdr, bias: u64) returns (err: Option<ElfError>)
    requires s.Valid() && Owned(s.View()) && h.Loadable()
    modifies s, s.frames, s.frames.bitmap
    ensures s.Valid() && Owned(s.View())
    ensures var r := h.Pages(bias);
            var (m, res) := MapRange(old(s.View()), r.first, r.pages, r.flags, false);
            && s.View() == m
            && err == (match res
                       case NoFrame => Some(FrameOom)
                       case MapFailed => Some(MapToFailed)
                       case Mapped => CopyError(image, h.offset, h.filesz, h.Seg(bias), m.pt.Keys))
            && SegmentBytes(old(s.pt), old(s.ram), s.pt, s.ram, image, h, bias,
                            if res == Mapped then Copied(image, h.offset, h.filesz, h.Seg(bias), m.pt.Keys, 0) else 0)
    ensures h.filesz <= h.memsz ==> SameView(old(s.pt), old(s.ram), s.pt, s.ram)
    ensures err == None ==> SegmentMapped(s.pt, h, bias)
    ensures forall p | p in old(s.pt) :: p in s.pt && s.pt[p] == old(s.pt)[p]
    ensures err == None && h.filesz <= h.memsz ==> SegmentLoaded(s.pt, s.ram, image, h, bias)
    ensures Confined(old(s.View()), old(s.ram), s.View(), s.ram)
  {
    hide Owned, MapRange, ReadVirt, Phdr.PageFlags, Phdr.Seg, CanCopy, Canonical, FreeSet, Copied, Confined;
    var r := h.Pages(bias);
    var seg := h.Seg(bias);
    MapRangePages(s.View(), r.first, r.pages, r.flags, false);
    var res := MapZeroed(s, r);
    if res == NoFrame {
      return Some(FrameOom);
    }
    if res == MapFailed {
      return Some(MapToFailed);
    }
    ghost var ram1 := s.ram;
    err := CopyFileBytes(s, image, h.offset, h.filesz, seg);
    ConfinedTwice(old(s.View()), old(s.ram), s.View(), ram1, s.View(), s.ram);
    forall va: nat | seg <= va < seg + h.memsz ensures InRange(PageOf(va), r.first, r.pages) {
      InSegment(seg, h.memsz, va);
    }
  }

  lemma InSegment(seg: nat, memsz: nat, va: nat)
    requires seg <= va < seg + memsz
    ensures InRange(PageOf(va), PageOf(seg), PageOf(seg + memsz - 1) - PageOf(seg) + 1)
  {
  }

  /** What the first n program headers determine. */
  ghost predicate MetaFor(image: seq<byte>, bias: u64, n: nat, k: nat, end: nat, rw: Option<nat>, phdr: Option<nat>)
    requires |image| >= 64
  {
    IsImageEnd(image, bias, n, end) && IsRwMin(image, bias, n, rw) && IsPhdrVa(image, bias, n, k, phdr)
  }

  lemma MetaSkip(image: seq<byte>, bias: u64, i: nat, k: nat, end: nat, rw: Option<nat>, phdr: Option<nat>)
    requires |image| >= 64 && MetaFor(image, bias, i, k, end, rw, phdr)
    requires PhdrInBounds(image, i) && !PhdrAt(image, i).Loadable()
    ensures MetaFor(image, bias, i + 1, k, end, rw, phdr)
  {
    hide PhdrAt, PhdrInBounds;
    assert forall x :: LoadableAt(image, i + 1, x) <==> LoadableAt(image, i, x);
  }

  function NextRw(h: Phdr, bias: u64, rw: Option<nat>): Option<nat> {
    if h.PageFlags().writable then Some(if rw.Some? then Min(rw.value, h.Seg(bias)) else h.Seg(bias)) else rw
  }

  function NextPhdr(h: Phdr, bias: u64, phoff: nat, phdr: Option<nat>): Option<nat> {
    if h.Holds(phoff) then Some(h.Seg(bias) + (phoff - h.offset)) else phdr
  }

  lemma MetaStep(image: seq<byte>, bias: u64, i: nat, k: nat, end: nat, rw: Option<nat>, phdr: Option<nat>)
    requires |image| >= 64 && MetaFor(image, bias, i, k, end, rw, phdr)
    requires PhdrInBounds(image, i) && PhdrAt(image, i).Loadable()
    ensures var h := PhdrAt(image, i);
            MetaFor(image, bias, i + 1, if h.Holds(Phoff(image)) then i else k,
                    Max(end, h.Seg(bias) + h.memsz), NextRw(h, bias, rw), NextPhdr(h, bias, Phoff(image), phdr))
  {
    hide PhdrAt, PhdrInBounds, Phoff;
    assert LoadableAt(image, i + 1, i);
    assert forall x :: LoadableAt(image, i, x) ==> LoadableAt(image, i + 1, x) && x != i;
    assert forall x :: LoadableAt(image, i + 1, x) ==> LoadableAt(image, i, x) || x == i;
  }

  /** The mapped and loaded state after the first n headers. */
  ghost predicate LoadedUpTo(pt: map<nat, Pte>, ram: map<nat, byte>, image: seq<byte>, bias: u64, n: nat)
    requires |image| >= 64
  {
    && AllMapped(pt, image, bias, n)
    && (FileWithinMem(image, n) ==> AllLoaded(pt, ram, image, bias, n))
    && (forall i: nat | i < n :: PhdrInBounds(image, i))
  }

  lemma LoadedSkip(pt: map<nat, Pte>, ram: map<nat, byte>, image: seq<byte>, bias: u64, i: nat)
    requires |image| >= 64 && LoadedUpTo(pt, ram, image, bias, i)
    requires PhdrInBounds(image, i) && !PhdrAt(image, i).Loadable()
    ensures LoadedUpTo(pt, ram, image, bias, i + 1)
  {
    hide PhdrAt, PhdrInBounds, SegmentMapped, SegmentLoaded;
    assert forall x :: LoadableAt(image, i + 1, x) <==> LoadableAt(image, i, x);
  }

  lemma LoadedStep(pt: map<nat, Pte>, ram: map<nat, byte>, pt': map<nat, Pte>, ram': map<nat, byte>,
                   image: seq<byte>, bias: u64, i: nat)
    requires |image| >= 64 && LoadedUpTo(pt, ram, image, bias, i)
    requires PhdrInBounds(image, i) && PhdrAt(image, i).Loadable()
    requires var h := PhdrAt(image, i);
             && SegmentMapped(pt', h, bias)
             && (forall p | p in pt :: p in pt' && pt'[p] == pt[p])
             && (h.filesz <= h.memsz ==> SameView(pt, ram, pt', ram') && SegmentLoaded(pt', ram', image, h, bias))
    ensures LoadedUpTo(pt', ram', image, bias, i + 1)
  {
    hide PhdrAt, PhdrInBounds;
    assert forall x :: LoadableAt(image, i, x) ==> LoadableAt(image, i + 1, x);
    assert LoadableAt(image, i + 1, i);
    forall x | LoadableAt(image, i + 1, x) ensures SegmentMapped(pt', PhdrAt(image, x), bias) {
      assert x != i ==> LoadableAt(image, i, x) && SegmentMapped(pt, PhdrAt(image, x), bias);
    }
    if FileWithinMem(image, i + 1) {
      assert PhdrAt(image, i).filesz <= PhdrAt(image, i).memsz;
      forall x | LoadableAt(image, i + 1, x) ensures SegmentLoaded(pt', ram', image, PhdrAt(image, x), bias) {
        if x != i {
          assert LoadableAt(image, i, x);
          StillLoaded(pt, ram, pt', ram', image, PhdrAt(image, x), bias);
        }
      }
    }
  }

  lemma StillLoaded(pt: map<nat, Pte>, ram: map<nat, byte>, pt': map<nat, Pte>, ram': map<nat, byte>,
                    image: seq<byte>, h: Phdr, bias: u64)
    requires SegmentLoaded(pt, ram, image, h, bias) && SameView(pt, ram, pt', ram')
    ensures SegmentLoaded(pt', ram', image, h, bias)
  {
    forall va: nat | h.Seg(bias) <= va < h.Seg(bias) + h.memsz
      ensures ReadVirt(pt', ram', va) == ReadVirt(pt, ram, va)
    {
      assert ReadVirt(pt, ram, va).Some?;
    }
  }

  lemma WrittenSkip(pt: map<nat, Pte>, ram: map<nat, byte>, pt': map<nat, Pte>, ram': map<nat, byte>,
                    image: seq<byte>, bias: u64, i: nat)
    requires |image| >= 64 && Written(pt, ram, pt', ram', image, bias, i, 0)
    requires PhdrInBounds(image, i) && !PhdrAt(image, i).Loadable()
    ensures Written(pt, ram, pt', ram', image, bias, i + 1, 0)
  {
    hide PhdrAt, PhdrInBounds, ReadVirt;
    assert forall va: nat :: FileByteTo(image, bias, i + 1, 0, va) == FileByteTo(image, bias, i, 0, va);
  }

  /** One more segment, copied as far as c. */
  lemma WrittenStep(pt: map<nat, Pte>, ram: map<nat, byte>, pt1: map<nat, Pte>, ram1: map<nat, byte>,
                    pt2: map<nat, Pte>, ram2: map<nat, byte>, image: seq<byte>, bias: u64, i: nat, c: nat)
    requires |image| >= 64 && Written(pt, ram, pt1, ram1, image, bias, i, 0)
    requires PhdrInBounds(image, i) && PhdrAt(image, i).Loadable() && forall p | p in pt1 :: p in pt2
    requires SegmentBytes(pt1, ram1, pt2, ram2, image, PhdrAt(image, i), bias, c)
    ensures Written(pt, ram, pt2, ram2, image, bias, i, c)
    ensures c == PhdrAt(image, i).filesz ==> Written(pt, ram, pt2, ram2, image, bias, i + 1, 0)
  {
    hide PhdrAt, PhdrInBounds, ReadVirt, FileByte, Phdr.Seg;
    var h := PhdrAt(image, i);
    forall va: nat
      ensures var b := FileByteTo(image, bias, i, c, va);
              if PageOf(va) in pt2 then ReadVirt(pt2, ram2, va) == if b.Some? then b else Cleared(pt, ram, va)
              else b == None
    {
      assert FileByteTo(image, bias, i, 0, va) == FileByte(image, bias, i, va);
    }
    if c == h.filesz {
      forall va: nat ensures FileByteTo(image, bias, i + 1, 0, va) == FileByteTo(image, bias, i, c, va) {
        NextByte(image, bias, i, va);
        assert FileByteTo(image, bias, i + 1, 0, va) == FileByte(image, bias, i + 1, va);
      }
    }
  }

  lemma NextByte(image: seq<byte>, bias: u64, i: nat, va: nat)
    requires |image| >= 64 && PhdrInBounds(image, i) && PhdrAt(image, i).Loadable()
    ensures FileByte(image, bias, i + 1, va) == FileByteTo(image, bias, i, PhdrAt(image, i).filesz, va)
  {
    hide PhdrAt, PhdrInBounds, InFile, Phdr.Seg;
    assert LoadableAt(image, i + 1, i);
  }

  /** Loads an executable. It succeeds if and only if the image can be loaded. Whatever happens, frame ownership holds
      afterwards, the page table is what mapping the ranges of the loadable headers, or the first of them, produces, and
      memory holds the file bytes copied so far and nothing else that is new but zeros. On success every PT_LOAD segment
      is mapped with its protection, and, when no header has p_filesz > p_memsz, holds its file bytes followed by zeros,
      with no segment disturbing another or, on any outcome, a page mapped before. `k` is the segment that supplies
      AT_PHDR, or the header that failed; `n` is the number of headers whose ranges were tried. */
  method LoadElfMapped(s: Space, image: seq<byte>, bias: u64)
      returns (r: Result<ElfLoadedMeta, ElfError>, ghost k: nat, ghost n: nat)
    requires s.Valid() && Owned(s.View())
    modifies s, s.frames, s.frames.bitmap
    ensures s.Valid() && Owned(s.View()) && Confined(old(s.View()), old(s.ram), s.View(), s.ram)
    ensures r.Success? <==> LoadOk(old(s.View()), image, bias)
    ensures CheckHeader(image).Some? ==>
              r == Failure(CheckHeader(image).value) && s.View() == old(s.View()) && s.ram == old(s.ram)
    ensures CheckHeader(image) == None ==>
              && n <= Phnum(image) && s.View() == LoadRanges(old(s.View()), SegmentRanges(image, bias, n)).0
              && (FileWithinMem(image, Phnum(image)) ==> SameView(old(s.pt), old(s.ram), s.pt, s.ram))
    ensures r.Success? ==>
              && n == Phnum(image) && LoadRanges(old(s.View()), SegmentRanges(image, bias, n)).1 == Mapped
              && LoadedUpTo(s.pt, s.ram, image, bias, Phnum(image))
              && Written(old(s.pt), old(s.ram), s.pt, s.ram, image, bias, Phnum(image), 0)
              && MetaOf(image, bias, k, r.value) && SumsFit(image, bias, Phnum(image))
    ensures r.Failure? && CheckHeader(image) == None ==>
              && Justified(old(s.View()), image, bias, k, r.error) && n == Tried(image, bias, k)
              && Written(old(s.pt), old(s.ram), s.pt, s.ram, image, bias, k, CopiedAt(old(s.View()), image, bias, k))
  {
    hide Owned, LoadRanges, MapRange, Phoff, Phnum, Entry, PhdrAt, PhdrInBounds, MetaFor, LoadedUpTo, FreeSet,
         SumsFit, SameView, FileWithinMem, SegmentLoaded, SegmentMapped, Justified, LoadableAt, CheckHeader,
         Phdr.Seg, Phdr.Holds, Phdr.PageFlags, Phdr.Pages, Phdr.Fits, LoadOk, HeadersOk, HeaderOk, FileOk, PagesAt,
         SegmentRanges, Written, SegmentBytes, CopiedAt, CopyError, Copied, Tried, Confined;
    k, n := 0, 0;
    ghost var m0 := s.View();
    ConfinedQuietly(m0, m0, s.ram);
    var bad := CheckHeader(image);
    if bad.Some? {
      BadHeaderBlocks(m0, image, bias);
      return Failure(bad.value), k, n;
    }
    var imageEnd: nat := 0;
    var rwMin: Option<nat> := None;
    var phdrVa: Option<nat> := None;
    StartEmpty(s.View(), s.ram, image, bias);
    for i := 0 to Phnum(image)
      invariant s.Valid() && Owned(s.View()) && Confined(m0, old(s.ram), s.View(), s.ram)
      invariant LoadRanges(m0, SegmentRanges(image, bias, i)) == (s.View(), Mapped)
      invariant MetaFor(image, bias, i, k, imageEnd, rwMin, phdrVa)
      invariant LoadedUpTo(s.pt, s.ram, image, bias, i) && SumsFit(image, bias, i) && HeadersOk(m0, image, bias, i)
      invariant FileWithinMem(image, i) ==> SameView(old(s.pt), old(s.ram), s.pt, s.ram)
      invariant Written(old(s.pt), old(s.ram), s.pt, s.ram, image, bias, i, 0)
    {
      FileWithinMemLess(image, i, Phnum(image));
      if Phoff(image) + i * PHENT + PHENT >= TWO64 {
        JustifyHeader(m0, image, bias, i, Panic);
        return Failure(Panic), i, i;
      }
      if !PhdrInBounds(image, i) {
        JustifyHeader(m0, image, bias, i, PhdrOob);
        return Failure(PhdrOob), i, i;
      }
      var h := PhdrAt(image, i);
      if h.kind == 1 && h.align != 0 && h.align != PAGE {
        JustifyHeader(m0, image, bias, i, UnsupportedAlign);
        return Failure(UnsupportedAlign), i, i;
      }
      if h.Loadable() && !h.Fits(bias, Phoff(image)) {
        JustifyHeader(m0, image, bias, i, Panic);
        return Failure(Panic), i, i;
      }
      FileWithinMemStep(image, i);
      SumsFitStep(image, bias, i);
      SegmentRangesStep(m0, image, bias, i);
      if !h.Loadable() {
        MetaSkip(image, bias, i, k, imageEnd, rwMin, phdrVa);
        LoadedSkip(s.pt, s.ram, image, bias, i);
        WrittenSkip(old(s.pt), old(s.ram), s.pt, s.ram, image, bias, i);
        HeadersOkStep(m0, image, bias, i);
        continue;
      }
      MetaStep(image, bias, i, k, imageEnd, rwMin, phdrVa);
      if h.Holds(Phoff(image)) {
        phdrVa := Some(h.Seg(bias) + (Phoff(image) - h.offset));
        k := i;
      }
      if h.PageFlags().writable {
        rwMin := Some(if rwMin.Some? then Min(rwMin.value, h.Seg(bias)) else h.Seg(bias));
      }
      ghost var m1, pt1, ram1 := s.View(), s.pt, s.ram;
      var err := LoadSegment(s, image, h, bias);
      ConfinedTwice(m0, old(s.ram), m1, ram1, s.View(), s.ram);
      FileWithinMemLess(image, i + 1, Phnum(image));
      if h.filesz <= h.memsz && FileWithinMem(image, i) {
        ViewTransitive(old(s.pt), old(s.ram), pt1, ram1, s.pt, s.ram);
      }
      SegmentStep(m0, s.View(), image, bias, i, err);
      WrittenStep(old(s.pt), old(s.ram), pt1, ram1, s.pt, s.ram, image, bias, i, CopiedAt(m0, image, bias, i));
      if err.Some? {
        return Failure(err.value), i, i + 1;
      }
      HeadersOkStep(m0, image, bias, i);
      LoadedStep(pt1, ram1, s.pt, s.ram, image, bias, i);
      imageEnd := Max(imageEnd, h.Seg(bias) + h.memsz);
    }
    n := Phnum(image);
    if phdrVa == None {
      NoPhdr(m0, image, bias, Phnum(image), k, imageEnd, rwMin);
      return Failure(NoPhdrInLoad), n, n;
    }
    var rw := if rwMin.Some? then rwMin.value else USER_TEXT_BASE + PAGE;
    r := Success(ElfLoadedMeta((Entry(image) + bias) % TWO64, phdrVa.value, Phnum(image), PHENT, imageEnd, rw));
    assert MetaFor(image, bias, Phnum(image), k, r.value.imageEnd, rwMin, Some(r.value.phdr));
    LoadWasOk(m0, image, bias, k, imageEnd, rwMin, phdrVa.value);
  }

  /** The range of header i is the next one mapped, if the header is loadable. */
  lemma SegmentRangesStep(m: Mem, image: seq<byte>, bias: u64, i: nat)
    requires |image| >= 64 && PhdrInBounds(image, i)
    requires LoadRanges(m, SegmentRanges(image, bias, i)).1 == Mapped
    ensures var m1 := LoadRanges(m, SegmentRanges(image, bias, i)).0;
            LoadRanges(m, SegmentRanges(image, bias, i + 1)) ==
            if PhdrAt(image, i).Loadable() then
              var r := PhdrAt(image, i).Pages(bias);
              MapRange(m1, r.first, r.pages, r.flags, false)
            else (m1, Mapped)
  {
    hide LoadRanges, MapRange, PhdrAt, PhdrInBounds, Phdr.Pages;
    var a := SegmentRanges(image, bias, i);
    var b := if PhdrAt(image, i).Loadable() then [PhdrAt(image, i).Pages(bias)] else [];
    LoadPrefix(m, a, b);
    var m1 := LoadRanges(m, a).0;
    LoadRangesStep(m1, b);
    if b != [] {
      LoadRangesStep(MapRange(m1, b[0].first, b[0].pages, b[0].flags, false).0, b[1..]);
    }
  }

  /** How the load goes on after segment i: with its file bytes copied, or stopped there for the reason given. */
  lemma SegmentStep(m: Mem, m': Mem, image: seq<byte>, bias: u64, i: nat, err: Option<ElfError>)
    requires |image| >= 64 && i < Phnum(image) && Phoff(image) + i * PHENT + PHENT < TWO64 && PhdrInBounds(image, i)
    requires Reached(m, image, bias, i)
    requires var h := PhdrAt(image, i);
             && h.Loadable() && (h.align == 0 || h.align == PAGE) && h.Fits(bias, Phoff(image))
             && m' == LoadRanges(m, SegmentRanges(image, bias, i + 1)).0
             && err == (match LoadRanges(m, SegmentRanges(image, bias, i + 1)).1
                        case NoFrame => Some(FrameOom)
                        case MapFailed => Some(MapToFailed)
                        case Mapped => CopyError(image, h.offset, h.filesz, h.Seg(bias), m'.pt.Keys))
    ensures var h := PhdrAt(image, i);
            CopiedAt(m, image, bias, i) ==
            if LoadRanges(m, SegmentRanges(image, bias, i + 1)).1 == Mapped
            then Copied(image, h.offset, h.filesz, h.Seg(bias), m'.pt.Keys, 0) else 0
    ensures err == None ==>
              && LoadRanges(m, SegmentRanges(image, bias, i + 1)).1 == Mapped
              && CopiedAt(m, image, bias, i) == PhdrAt(image, i).filesz
              && FileOk(image, bias, PhdrAt(image, i), m'.pt.Keys)
              && FileOk(image, bias, PhdrAt(image, i), PagesAt(m, image, bias, i))
    ensures err.Some? ==>
              && Justified(m, image, bias, i, err.value) && Tried(image, bias, i) == i + 1
              && !LoadOk(m, image, bias)
  {
    hide PhdrAt, LoadRanges, SegmentRanges, LoadOk, Phdr.Fits, PhdrInBounds, Phnum, Phoff, HeadersOk, Phdr.Seg, FileOk,
         Copied, Phdr.Holds;
    if LoadRanges(m, SegmentRanges(image, bias, i + 1)).1 == Mapped {
      LoadRangesKeys(m, SegmentRanges(image, bias, i + 1));
      CopiedAll(image, bias, PhdrAt(image, i), m'.pt.Keys);
    }
    if err.Some? {
      JustifiedBlocks(m, image, bias, i, err.value);
    }
  }

  lemma HeadersOkStep(m: Mem, image: seq<byte>, bias: u64, i: nat)
    requires |image| >= 64 && HeadersOk(m, image, bias, i) && Phoff(image) + i * PHENT + PHENT < TWO64
    requires PhdrInBounds(image, i)
    requires PhdrAt(image, i).kind == 1 ==> PhdrAt(image, i).align == 0 || PhdrAt(image, i).align == PAGE
    requires PhdrAt(image, i).Loadable() ==>
               && PhdrAt(image, i).Fits(bias, Phoff(image))
               && FileOk(image, bias, PhdrAt(image, i), PagesAt(m, image, bias, i))
    ensures HeadersOk(m, image, bias, i + 1)
  {
    hide PhdrAt, PhdrInBounds, FileOk, PagesAt, Phdr.Fits, Phoff;
    assert forall x :: LoadableAt(image, i + 1, x) ==> LoadableAt(image, i, x) || x == i;
  }

  lemma LoadWasOk(m: Mem, image: seq<byte>, bias: u64, k: nat, end: nat, rw: Option<nat>, phdr: nat)
    requires CheckHeader(image) == None && HeadersOk(m, image, bias, Phnum(image))
    requires LoadRanges(m, SegmentRanges(image, bias, Phnum(image))).1 == Mapped
    requires MetaFor(image, bias, Phnum(image), k, end, rw, Some(phdr))
    ensures LoadOk(m, image, bias)
  {
    hide LoadRanges, SegmentRanges, HeadersOk, LoadFits, PhdrAt, CheckHeader, Phoff, Phnum;
    LoadRangesExactly(m, SegmentRanges(image, bias, Phnum(image)));
  }

  lemma BadHeaderBlocks(m: Mem, image: seq<byte>, bias: u64)
    requires CheckHeader(image).Some?
    ensures !LoadOk(m, image, bias)
  {
  }

  /** The metadata handed to the stack builder, in terms of the headers. */
  ghost predicate MetaOf(image: seq<byte>, bias: u64, k: nat, meta: ElfLoadedMeta)
    requires |image| >= 64
  {
    && meta.entry == (Entry(image) + bias) % TWO64
    && meta.phnum == Phnum(image) && meta.phent == PHENT
    && exists rw: Option<nat> ::
         && MetaFor(image, bias, Phnum(image), k, meta.imageEnd, rw, Some(meta.phdr))
         && meta.rwMin == if rw.Some? then rw.value else USER_TEXT_BASE + PAGE
  }

  lemma NoPhdr(m: Mem, image: seq<byte>, bias: u64, n: nat, k: nat, end: nat, rw: Option<nat>)
    requires |image| >= 64 && MetaFor(image, bias, n, k, end, rw, None) && n == Phnum(image)
    requires Reached(m, image, bias, n)
    ensures Justified(m, image, bias, n, NoPhdrInLoad) && !LoadOk(m, image, bias)
    ensures Tried(image, bias, n) == n && CopiedAt(m, image, bias, n) == 0
  {
    hide Reached, LoadRanges, SegmentRanges;
    JustifiedBlocks(m, image, bias, n, NoPhdrInLoad);
  }

  /** A header that is refused before its pages are tried. */
  lemma JustifyHeader(m: Mem, image: seq<byte>, bias: u64, i: nat, e: ElfError)
    requires |image| >= 64 && i < Phnum(image) && Reached(m, image, bias, i)
    requires if Phoff(image) + i * PHENT + PHENT >= TWO64 then e == Panic
             else if !PhdrInBounds(image, i) then e == PhdrOob
             else if PhdrAt(image, i).kind == 1 && PhdrAt(image, i).align != 0 && PhdrAt(image, i).align != PAGE
             then e == UnsupportedAlign
             else e == Panic && PhdrAt(image, i).Loadable() && !PhdrAt(image, i).Fits(bias, Phoff(image))
    ensures Justified(m, image, bias, i, e) && !LoadOk(m, image, bias)
    ensures Tried(image, bias, i) == i && CopiedAt(m, image, bias, i) == 0
  {
    hide Reached, PhdrAt, LoadRanges, SegmentRanges, LoadOk, Phoff, Phnum, Phdr.Fits, PhdrInBounds;
    JustifiedBlocks(m, image, bias, i, e);
  }

  lemma SumsFitStep(image: seq<byte>, bias: u64, i: nat)
    requires |image| >= 64 && PhdrInBounds(image, i) && SumsFit(image, bias, i)
    requires Phoff(image) + i * PHENT + PHENT < TWO64
    requires PhdrAt(image, i).Loadable() ==> PhdrAt(image, i).Fits(bias, Phoff(image))
    ensures SumsFit(image, bias, i + 1)
  {
    hide PhdrAt, PhdrInBounds, Phdr.Fits;
    assert forall x :: LoadableAt(image, i + 1, x) ==> LoadableAt(image, i, x) || x == i;
  }

  lemma StartEmpty(m: Mem, ram: map<nat, byte>, image: seq<byte>, bias: u64)
    requires |image| >= 64
    ensures LoadedUpTo(m.pt, ram, image, bias, 0) && SameView(m.pt, ram, m.pt, ram)
    ensures MetaFor(image, bias, 0, 0, 0, None, None) && SumsFit(image, bias, 0) && HeadersOk(m, image, bias, 0)
    ensures LoadRanges(m, SegmentRanges(image, bias, 0)) == (m, Mapped)
    ensures Written(m.pt, ram, m.pt, ram, image, bias, 0, 0)
  {
  }

  lemma FileWithinMemLess(image: seq<byte>, i: nat, n: nat)
    requires |image| >= 64 && i <= n
    ensures FileWithinMem(image, n) ==> FileWithinMem(image, i)
  {
    assert forall x :: LoadableAt(image, i, x) ==> LoadableAt(image, n, x);
  }

  lemma FileWithinMemStep(image: seq<byte>, i: nat)
    requires |image| >= 64 && PhdrInBounds(image, i)
    ensures FileWithinMem(image, i + 1) <==>
            FileWithinMem(image, i)
            && (PhdrAt(image, i).Loadable() ==> PhdrAt(image, i).filesz <= PhdrAt(image, i).memsz)
  {
    hide PhdrAt, PhdrInBounds;
    assert forall x :: LoadableAt(image, i, x) ==> LoadableAt(image, i + 1, x);
    assert PhdrAt(image, i).Loadable() ==> LoadableAt(image, i + 1, i);
  }

  lemma ViewTransitive(pt: map<nat, Pte>, ram: map<nat, byte>, pt1: map<nat, Pte>, ram1: map<nat, byte>,
                       pt2: map<nat, Pte>, ram2: map<nat, byte>)
    requires SameView(pt, ram, pt1, ram1) && SameView(pt1, ram1, pt2, ram2)
    ensures SameView(pt, ram, pt2, ram2)
  {
  }

  /** A later segment's file bytes reach an address of [lo, hi). */
  ghost predicate Overlaid(image: seq<byte>, bias: u64, k: nat, lo: nat, hi: nat)
    requires |image| >= 64
  {
    exists i, va: nat :: && LoadableAt(image, Phnum(image), i) && k < i && lo <= va < hi
                         && InFile(image, PhdrAt(image, i), bias, PhdrAt(image, i).filesz, va)
  }

  /** AT_PHDR points at a copy of the program header table whenever the table lies inside the file span of the segment
      that holds its start and no later segment's file bytes are laid over it, as none are when no header has
      p_filesz > p_memsz. */
  lemma PhdrTableVisible(pt: map<nat, Pte>, ram: map<nat, byte>, pt': map<nat, Pte>, ram': map<nat, byte>,
                         image: seq<byte>, bias: u64, k: nat, meta: ElfLoadedMeta)
    requires |image| >= 64 && MetaOf(image, bias, k, meta) && LoadedUpTo(pt', ram', image, bias, Phnum(image))
    requires Written(pt, ram, pt', ram', image, bias, Phnum(image), 0)
    ensures LoadableAt(image, Phnum(image), k)
    ensures var h := PhdrAt(image, k);
            var len := Phnum(image) * PHENT;
            && Phoff(image) + len <= |image|
            && (&& Phoff(image) + len <= h.offset + h.filesz
                && (FileWithinMem(image, Phnum(image)) || !Overlaid(image, bias, k, meta.phdr, meta.phdr + len)) ==>
                  forall va: nat | meta.phdr <= va < meta.phdr + len ::
                    ReadVirt(pt', ram', va) == Some(image[Phoff(image) + va - meta.phdr]))
  {
    hide PhdrAt, Phoff, Phnum, ReadVirt, Phdr.Seg, Written, Overlaid;
    var h := PhdrAt(image, k);
    var len := Phnum(image) * PHENT;
    assert PhdrInBounds(image, Phnum(image) - 1);
    if Phoff(image) + len <= h.offset + h.filesz {
      if FileWithinMem(image, Phnum(image)) {
        assert SegmentLoaded(pt', ram', image, h, bias);
      } else if !Overlaid(image, bias, k, meta.phdr, meta.phdr + len) {
        forall va: nat | meta.phdr <= va < meta.phdr + len
          ensures ReadVirt(pt', ram', va) == Some(image[Phoff(image) + va - meta.phdr])
        {
          LastByte(pt, ram, pt', ram', image, bias, k, meta.phdr, meta.phdr + len, va);
        }
      }
    }
  }

  /** A file byte that no later segment is laid over. */
  lemma LastByte(pt: map<nat, Pte>, ram: map<nat, byte>, pt': map<nat, Pte>, ram': map<nat, byte>, image: seq<byte>,
                 bias: u64, k: nat, lo: nat, hi: nat, va: nat)
    requires |image| >= 64 && Written(pt, ram, pt', ram', image, bias, Phnum(image), 0)
    requires LoadableAt(image, Phnum(image), k) && lo <= va < hi && !Overlaid(image, bias, k, lo, hi)
    requires InFile(image, PhdrAt(image, k), bias, PhdrAt(image, k).filesz, va)
    ensures ReadVirt(pt', ram', va) == Some(image[PhdrAt(image, k).offset + va - PhdrAt(image, k).Seg(bias)])
  {
    hide PhdrAt, PhdrInBounds, Phoff, Phnum, FileByte, ReadVirt, Phdr.Seg;
    FileByteIs(image, bias, Phnum(image), va);
    assert FileByteTo(image, bias, Phnum(image), 0, va) == FileByte(image, bias, Phnum(image), va);
  }
}
