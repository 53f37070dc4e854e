/**
 The two ELF structures written out as bytes, field after field (System V gABI, chapter 4, ELF Header, and chapter 5,
 Program Header): what the loader reads from an image is what was written there.
 */
module ElfFormat {
  import opened Basics
  import opened Paging
  import opened PageRanges
  import opened UserMemory
  import AddressSpace
  import opened ElfLoader

  /** Elf64_Ehdr; `ident` is e_ident. */
  datatype Ehdr = Ehdr(
    ident: Bytes, kind: nat, machine: nat, version: nat, entry: nat, phoff: nat, shoff: nat, flags: nat,
    ehsize: nat, phentsize: nat, phnum: nat, shentsize: nat, shnum: nat, shstrndx: nat)

  predicate EhdrFits(e: Ehdr) {
    && |e.ident| == 16 && e.kind < 0x1_0000 && e.machine < 0x1_0000 && e.version < 0x1_0000_0000
    && e.entry < TWO64 && e.phoff < TWO64 && e.shoff < TWO64 && e.flags < 0x1_0000_0000 && e.ehsize < 0x1_0000
    && e.phentsize < 0x1_0000 && e.phnum < 0x1_0000 && e.shentsize < 0x1_0000 && e.shnum < 0x1_0000
    && e.shstrndx < 0x1_0000
  }

  function EncodeEhdr(e: Ehdr): Bytes {
    e.ident + LeBytes(e.kind, 2) + LeBytes(e.machine, 2) + LeBytes(e.version, 4) + LeBytes(e.entry, 8)
    + LeBytes(e.phoff, 8) + LeBytes(e.shoff, 8) + LeBytes(e.flags, 4) + LeBytes(e.ehsize, 2)
    + LeBytes(e.phentsize, 2) + LeBytes(e.phnum, 2) + LeBytes(e.shentsize, 2) + LeBytes(e.shnum, 2)
    + LeBytes(e.shstrndx, 2)
  }

  /** Elf64_Phdr */
  datatype RawPhdr = RawPhdr(
    kind: nat, flags: nat, offset: nat, vaddr: nat, paddr: nat, filesz: nat, memsz: nat, align: nat)

  predicate PhdrFits(p: RawPhdr) {
    && p.kind < 0x1_0000_0000 && p.flags < 0x1_0000_0000 && p.offset < TWO64 && p.vaddr < TWO64 && p.paddr < TWO64
    && p.filesz < TWO64 && p.memsz < TWO64 && p.align < TWO64
  }

  function EncodePhdr(p: RawPhdr): Bytes {
    LeBytes(p.kind, 4) + LeBytes(p.flags, 4) + LeBytes(p.offset, 8) + LeBytes(p.vaddr, 8) + LeBytes(p.paddr, 8)
    + LeBytes(p.filesz, 8) + LeBytes(p.memsz, 8) + LeBytes(p.align, 8)
  }

  lemma Powers()
    ensures Pow256(2) == 0x1_0000 && Pow256(4) == 0x1_0000_0000 && Pow256(8) == TWO64
  {
    assert Pow256(4) == 256 * 256 * Pow256(2);
    assert Pow256(6) == 256 * 256 * Pow256(4);
  }

  /** A word written at the end of `before` is read back from there. */
  lemma WordBack(image: Bytes, at: nat, s: Bytes, before: Bytes, x: nat, n: nat, after: Bytes)
    requires at + |s| <= |image| && image[at..at + |s|] == s && s == before + LeBytes(x, n) + after && x < Pow256(n)
    ensures at + |before| + n <= |image| && FromLe(image[at + |before|..at + |before| + n]) == x
  {
    hide LeBytes;
    LeRoundTrip(x, n);
    var lo := |before|;
    assert s[lo..lo + n] == LeBytes(x, n);
    var word := image[at + lo..at + lo + n];
    forall j | 0 <= j < n ensures word[j] == s[lo + j] {
      assert s[lo + j] == image[at..at + |s|][lo + j];
    }
    assert word == s[lo..lo + n];
  }

  /** The program header the loader reads is the one that was written, each field from its own place. */
  lemma PhdrReadBack(image: Bytes, i: nat, p: RawPhdr)
    requires |image| >= 64 && PhdrFits(p) && Phoff(image) + 56 * i + 56 <= |image|
    requires image[Phoff(image) + 56 * i..Phoff(image) + 56 * i + 56] == EncodePhdr(p)
    ensures PhdrInBounds(image, i)
    ensures PhdrAt(image, i) == Phdr(p.kind, p.flags, p.offset, p.vaddr, p.filesz, p.memsz, p.align)
  {
    hide FromLe, Phoff, EncodePhdr;
    var at := Phoff(image) + 56 * i;
    PhdrFront(image, at, p);
    PhdrMiddle(image, at, p);
    PhdrBack(image, at, p);
  }

  lemma PhdrFront(image: Bytes, at: nat, p: RawPhdr)
    requires PhdrFits(p) && at + 56 <= |image| && image[at..at + 56] == EncodePhdr(p)
    ensures Field(image, at, 4) == p.kind && Field(image, at + 4, 4) == p.flags
  {
    hide LeBytes, FromLe, Pow256;
    Powers();
    var s := EncodePhdr(p);
    var x, y, rest := LeBytes(p.kind, 4), LeBytes(p.flags, 4), s[8..];
    assert s == [] + x + y + rest == x + y + rest;
    WordBack(image, at, s, [], p.kind, 4, y + rest);
    WordBack(image, at, s, x, p.flags, 4, rest);
  }

  lemma PhdrMiddle(image: Bytes, at: nat, p: RawPhdr)
    requires PhdrFits(p) && at + 56 <= |image| && image[at..at + 56] == EncodePhdr(p)
    ensures Field(image, at + 8, 8) == p.offset && Field(image, at + 16, 8) == p.vaddr
  {
    hide LeBytes, FromLe, Pow256;
    Powers();
    var s := EncodePhdr(p);
    var front, x, y, rest := s[..8], LeBytes(p.offset, 8), LeBytes(p.vaddr, 8), s[24..];
    assert s == front + x + y + rest;
    WordBack(image, at, s, front, p.offset, 8, y + rest);
    WordBack(image, at, s, front + x, p.vaddr, 8, rest);
  }

  lemma PhdrBack(image: Bytes, at: nat, p: RawPhdr)
    requires PhdrFits(p) && at + 56 <= |image| && image[at..at + 56] == EncodePhdr(p)
    ensures Field(image, at + 32, 8) == p.filesz && Field(image, at + 40, 8) == p.memsz
    ensures Field(image, at + 48, 8) == p.align
  {
    hide LeBytes, FromLe, Pow256;
    Powers();
    var s := EncodePhdr(p);
    var front, x, y, z := s[..32], LeBytes(p.filesz, 8), LeBytes(p.memsz, 8), LeBytes(p.align, 8);
    assert s == front + x + y + z;
    WordBack(image, at, s, front, p.filesz, 8, y + z);
    WordBack(image, at, s, front + x, p.memsz, 8, z);
    assert s == front + x + y + z + [];
    WordBack(image, at, s, front + x + y, p.align, 8, []);
  }

  /** The file header likewise: entry, header table and the check, which passes exactly for a little-endian 64-bit
      executable or shared object for x86-64 with 56-byte program headers. */
  lemma EhdrReadBack(image: Bytes, e: Ehdr)
    requires |image| >= 64 && EhdrFits(e) && image[..64] == EncodeEhdr(e)
    ensures Entry(image) == e.entry && Phoff(image) == e.phoff && Phnum(image) == e.phnum
    ensures CheckHeader(image) ==
            if e.ident[..6] != [0x7F, 0x45, 0x4C, 0x46, 2, 1] then Some(BadElf)
            else if e.kind != 2 && e.kind != 3 then Some(NotExecOrDyn)
            else if e.machine != 62 then Some(NotX86)
            else if e.phentsize != 56 then Some(PhdrSize)
            else None
  {
    hide EncodeEhdr, FromLe;
    EhdrFront(image, e);
    EhdrMiddle(image, e);
    EhdrBack(image, e);
    IdentIs(image, e);
  }

  lemma EhdrFront(image: Bytes, e: Ehdr)
    requires |image| >= 64 && EhdrFits(e) && image[..64] == EncodeEhdr(e)
    ensures FromLe(image[16..18]) == e.kind && FromLe(image[18..20]) == e.machine
  {
    hide LeBytes, FromLe, Pow256;
    Powers();
    var s := EncodeEhdr(e);
    assert image[0..0 + |s|] == image[..64] == s;
    var front, x, y, rest := s[..16], LeBytes(e.kind, 2), LeBytes(e.machine, 2), s[20..];
    assert s == front + x + y + rest;
    WordBack(image, 0, s, front, e.kind, 2, y + rest);
    WordBack(image, 0, s, front + x, e.machine, 2, rest);
  }

  lemma EhdrMiddle(image: Bytes, e: Ehdr)
    requires |image| >= 64 && EhdrFits(e) && image[..64] == EncodeEhdr(e)
    ensures FromLe(image[24..32]) == e.entry && FromLe(image[32..40]) == e.phoff
  {
    hide LeBytes, FromLe, Pow256;
    Powers();
    var s := EncodeEhdr(e);
    assert image[0..0 + |s|] == image[..64] == s;
    var front, x, y, rest := s[..24], LeBytes(e.entry, 8), LeBytes(e.phoff, 8), s[40..];
    assert s == front + x + y + rest;
    WordBack(image, 0, s, front, e.entry, 8, y + rest);
    WordBack(image, 0, s, front + x, e.phoff, 8, rest);
  }

  lemma EhdrBack(image: Bytes, e: Ehdr)
    requires |image| >= 64 && EhdrFits(e) && image[..64] == EncodeEhdr(e)
    ensures FromLe(image[54..56]) == e.phentsize && FromLe(image[56..58]) == e.phnum
  {
    hide LeBytes, FromLe, Pow256;
    Powers();
    var s := EncodeEhdr(e);
    assert image[0..0 + |s|] == image[..64] == s;
    var front, x, y, rest := s[..54], LeBytes(e.phentsize, 2), LeBytes(e.phnum, 2), s[58..];
    assert s == front + x + y + rest;
    WordBack(image, 0, s, front, e.phentsize, 2, y + rest);
    WordBack(image, 0, s, front + x, e.phnum, 2, rest);
  }

  lemma IdentIs(image: Bytes, e: Ehdr)
    requires |image| >= 64 && EhdrFits(e) && image[..64] == EncodeEhdr(e)
    ensures e.ident[..6] == [0x7F, 0x45, 0x4C, 0x46, 2, 1] <==>
            image[0..4] == [0x7F, 0x45, 0x4C, 0x46] && image[4] == 2 && image[5] == 1
  {
    hide LeBytes;
    assert forall j | 0 <= j < 16 :: image[..64][j] == e.ident[j];
    assert image[0..4] == e.ident[..6][..4] && image[4] == e.ident[..6][4] && image[5] == e.ident[..6][5];
    assert e.ident[..6] == image[0..4] + [image[4], image[5]];
  }

  /** What a program header asks for, in its own fields: type 1 is a segment, flag 1 execute, flag 2 write. */
  lemma PhdrMeans(p: RawPhdr, bias: u64, phoff: nat)
    requires PhdrFits(p)
    ensures var h := Phdr(p.kind, p.flags, p.offset, p.vaddr, p.filesz, p.memsz, p.align);
            && (h.Loadable() <==> p.kind == 1 && p.memsz > 0)
            && h.Seg(bias) == (if p.vaddr + bias < TWO64 then p.vaddr + bias else p.vaddr + bias - TWO64)
            && (h.PageFlags().writable <==> p.flags % 4 == 2 || p.flags % 4 == 3)
            && (h.PageFlags().noExecute <==> p.flags % 2 == 0)
            && (p.offset + p.filesz < TWO64 ==> (h.Holds(phoff) <==> p.offset <= phoff < p.offset + p.filesz))
            && (p.memsz > 0 ==>
                  forall q: nat :: (h.Pages(bias).first <= q < h.Pages(bias).first + h.Pages(bias).pages) <==>
                                   (q * 4096 < h.Seg(bias) + p.memsz && h.Seg(bias) < q * 4096 + 4096))
  {
  }

  /** The file holds this header and these program headers. */
  ghost predicate WrittenImage(image: Bytes, e: Ehdr, ps: seq<RawPhdr>) {
    && |image| >= 64 && EhdrFits(e) && image[..64] == EncodeEhdr(e) && e.phnum == |ps|
    && forall i | 0 <= i < |ps| :: HeaderWritten(image, e, i, ps[i])
  }

  ghost predicate HeaderWritten(image: Bytes, e: Ehdr, i: nat, p: RawPhdr) {
    && PhdrFits(p) && e.phoff + 56 * i + 56 <= |image|
    && image[e.phoff + 56 * i..e.phoff + 56 * i + 56] == EncodePhdr(p)
  }

  /** Once such a file is loaded, every segment is in memory where its header says: byte j at p_vaddr + bias + j is byte
      p_offset + j of the file up to p_filesz, and zero from there up to p_memsz. */
  lemma LoadedAsWritten(pt: map<nat, Pte>, ram: map<nat, byte>, image: Bytes, e: Ehdr, ps: seq<RawPhdr>, bias: u64,
                        i: nat, j: nat)
    requires WrittenImage(image, e, ps) && LoadedUpTo(pt, ram, image, bias, Phnum(image))
    requires i < |ps| && ps[i].kind == 1 && j < ps[i].memsz && forall q | q in ps :: q.filesz <= q.memsz
    ensures ps[i].filesz > 0 ==> ps[i].offset + ps[i].filesz <= |image|
    ensures AddressSpace.ReadVirt(pt, ram, (ps[i].vaddr + bias) % TWO64 + j)
            == Some(if j < ps[i].filesz then image[ps[i].offset + j] else 0)
  {
    hide PhdrAt, PhdrInBounds, EncodeEhdr, EncodePhdr, AddressSpace.ReadVirt, Phoff, Phnum, CheckHeader, Entry;
    EhdrReadBack(image, e);
    forall x: nat | x < |ps|
      ensures PhdrInBounds(image, x)
      ensures PhdrAt(image, x)
              == Phdr(ps[x].kind, ps[x].flags, ps[x].offset, ps[x].vaddr, ps[x].filesz, ps[x].memsz, ps[x].align)
    {
      assert HeaderWritten(image, e, x, ps[x]);
      PhdrReadBack(image, x, ps[x]);
    }
    assert forall x | LoadableAt(image, Phnum(image), x) :: PhdrAt(image, x).filesz <= PhdrAt(image, x).memsz by {
      assert forall x: nat | x < |ps| :: ps[x] in ps;
    }
    assert LoadableAt(image, Phnum(image), i);
    assert SegmentLoaded(pt, ram, image, PhdrAt(image, i), bias);
  }

  // ----- exactly which files load -----

  /** An address the processor accepts: the lower or the upper half of the 48-bit space. */
  predicate Half(a: nat) {
    a < 0x8000_0000_0000 || 0xFFFF_8000_0000_0000 <= a < 0x1_0000_0000_0000_0000
  }

  predicate IsSegment(p: RawPhdr) {
    p.kind == 1 && p.memsz > 0
  }

  function At(p: RawPhdr, bias: u64): nat {
    (p.vaddr + bias) % 0x1_0000_0000_0000_0000
  }

  /** The pages that meet the segment, with its rights. */
  function RawPages(p: RawPhdr, bias: u64): PageRange
    requires IsSegment(p)
  {
    var first, last := At(p, bias) / 4096, (At(p, bias) + p.memsz - 1) / 4096;
    PageRange(first, last - first + 1, Flags(p.flags % 4 >= 2, p.flags % 2 == 0))
  }

  function RawRanges(ps: seq<RawPhdr>, bias: u64, n: nat): seq<PageRange>
    requires n <= |ps|
  {
    if n == 0 then []
    else RawRanges(ps, bias, n - 1) + if IsSegment(ps[n - 1]) then [RawPages(ps[n - 1], bias)] else []
  }

  /** The loader's demands on one header, in its own fields: it can be addressed, has alignment 0 or 4096 if it is a
      segment, and, if it takes memory, starts and ends at addresses of the machine without the place of the header
      table running past the last of them. */
  ghost predicate RawHeaderOk(e: Ehdr, ps: seq<RawPhdr>, bias: u64, i: nat)
    requires i < |ps|
  {
    var p := ps[i];
    && e.phoff + 56 * i + 56 < 0x1_0000_0000_0000_0000
    && (p.kind == 1 ==> p.align == 0 || p.align == 4096)
    && (IsSegment(p) ==>
          && Half(At(p, bias)) && Half(At(p, bias) + p.memsz) && Half(At(p, bias) + p.memsz - 1)
          && (p.offset <= e.phoff < Min(p.offset + p.filesz, 0xFFFF_FFFF_FFFF_FFFF) ==>
                At(p, bias) + e.phoff - p.offset < 0x1_0000_0000_0000_0000))
  }

  lemma HeaderAccepted(image: Bytes, e: Ehdr, ps: seq<RawPhdr>, bias: u64, i: nat)
    requires WrittenImage(image, e, ps) && i < |ps|
    ensures HeaderOk(image, bias, i) <==> RawHeaderOk(e, ps, bias, i)
  {
    hide PhdrAt, PhdrInBounds, EncodeEhdr, EncodePhdr, Phoff, Phnum, CheckHeader, Entry;
    EhdrReadBack(image, e);
    assert HeaderWritten(image, e, i, ps[i]);
    PhdrReadBack(image, i, ps[i]);
  }

  /** The segment's bytes are in the file, and where they go is an address of the machine on a page that is mapped by
      then. */
  ghost predicate RawFileOk(m: Mem, image: Bytes, ps: seq<RawPhdr>, bias: u64, i: nat)
    requires i < |ps|
  {
    var p := ps[i];
    && (p.filesz > 0 ==> p.offset + p.filesz <= |image|)
    && forall va: nat | At(p, bias) <= va < At(p, bias) + p.filesz ::
         Half(va) && PageOf(va) in m.pt.Keys + PagesOf(RawRanges(ps, bias, i + 1))
  }

  /** A written file can be loaded exactly when it is a little-endian 64-bit executable or shared object for x86-64 with
      56-byte program headers, every header is in order, every segment's bytes can be copied, the pages of all segments
      fit, and one segment's bytes hold the header table's start. */
  lemma LoadsExactly(m: Mem, image: Bytes, e: Ehdr, ps: seq<RawPhdr>, bias: u64)
    requires WrittenImage(image, e, ps)
    ensures LoadOk(m, image, bias) <==>
            && e.ident[..6] == [0x7F, 0x45, 0x4C, 0x46, 2, 1] && (e.kind == 2 || e.kind == 3) && e.machine == 62
            && e.phentsize == 56
            && (forall i: nat | i < |ps| :: RawHeaderOk(e, ps, bias, i))
            && (forall i: nat | i < |ps| && IsSegment(ps[i]) :: RawFileOk(m, image, ps, bias, i))
            && LoadFits(m, RawRanges(ps, bias, |ps|))
            && exists i: nat :: i < |ps| && IsSegment(ps[i])
                                && ps[i].offset <= e.phoff < Min(ps[i].offset + ps[i].filesz, 0xFFFF_FFFF_FFFF_FFFF)
  {
    hide PhdrAt, PhdrInBounds, EncodeEhdr, EncodePhdr, Phoff, Phnum, CheckHeader, Entry, RawHeaderOk, HeaderOk,
         RawFileOk, FileOk, LoadFits, SegmentRanges, RawRanges, PagesAt;
    EhdrReadBack(image, e);
    forall i: nat | i < |ps|
      ensures HeaderOk(image, bias, i) <==> RawHeaderOk(e, ps, bias, i)
      ensures LoadableAt(image, |ps|, i) <==> IsSegment(ps[i])
      ensures IsSegment(ps[i]) ==>
                && (FileOk(image, bias, PhdrAt(image, i), PagesAt(m, image, bias, i)) <==>
                    RawFileOk(m, image, ps, bias, i))
                && (PhdrAt(image, i).Holds(Phoff(image)) <==>
                    ps[i].offset <= e.phoff < Min(ps[i].offset + ps[i].filesz, 0xFFFF_FFFF_FFFF_FFFF))
    {
      HeaderAsWritten(m, image, e, ps, bias, i);
    }
    RangesAsWritten(image, e, ps, bias, |ps|);
  }

  lemma HeaderAsWritten(m: Mem, image: Bytes, e: Ehdr, ps: seq<RawPhdr>, bias: u64, i: nat)
    requires WrittenImage(image, e, ps) && i < |ps|
    ensures HeaderOk(image, bias, i) <==> RawHeaderOk(e, ps, bias, i)
    ensures LoadableAt(image, |ps|, i) <==> IsSegment(ps[i])
    ensures IsSegment(ps[i]) ==>
              && (FileOk(image, bias, PhdrAt(image, i), PagesAt(m, image, bias, i)) <==>
                  RawFileOk(m, image, ps, bias, i))
              && (PhdrAt(image, i).Holds(Phoff(image)) <==>
                  ps[i].offset <= e.phoff < Min(ps[i].offset + ps[i].filesz, 0xFFFF_FFFF_FFFF_FFFF))
  {
    hide PhdrAt, PhdrInBounds, EncodeEhdr, EncodePhdr, Phoff, Phnum, CheckHeader, Entry, SegmentRanges, RawRanges,
         HeaderOk, PagesOf;
    EhdrReadBack(image, e);
    assert HeaderWritten(image, e, i, ps[i]);
    PhdrReadBack(image, i, ps[i]);
    HeaderAccepted(image, e, ps, bias, i);
    RangesAsWritten(image, e, ps, bias, i + 1);
    FileAsWritten(image, bias, PhdrAt(image, i), PagesAt(m, image, bias, i));
  }

  lemma FileAsWritten(image: Bytes, bias: u64, h: Phdr, pages: set<nat>)
    ensures FileOk(image, bias, h, pages) <==>
            && (h.filesz > 0 ==> h.offset + h.filesz <= |image|)
            && forall va: nat | h.Seg(bias) <= va < h.Seg(bias) + h.filesz :: Half(va) && PageOf(va) in pages
  {
    forall va: nat ensures Canonical(va) <==> Half(va) {
    }
  }

  lemma {:induction false} RangesAsWritten(image: Bytes, e: Ehdr, ps: seq<RawPhdr>, bias: u64, n: nat)
    requires WrittenImage(image, e, ps) && n <= |ps|
    ensures SegmentRanges(image, bias, n) == RawRanges(ps, bias, n)
    decreases n
  {
    hide PhdrAt, PhdrInBounds, EncodeEhdr, EncodePhdr, Phoff, Phnum, CheckHeader, Entry;
    if n > 0 {
      RangesAsWritten(image, e, ps, bias, n - 1);
      EhdrReadBack(image, e);
      assert HeaderWritten(image, e, n - 1, ps[n - 1]);
      PhdrReadBack(image, n - 1, ps[n - 1]);
      SecondBit(ps[n - 1].flags);
    }
  }

  predicate HoldsTable(e: Ehdr, p: RawPhdr) {
    IsSegment(p) && p.offset <= e.phoff < Min(p.offset + p.filesz, 0xFFFF_FFFF_FFFF_FFFF)
  }

  predicate Writable(p: RawPhdr) {
    IsSegment(p) && p.flags % 4 >= 2
  }

  /** What the loader reports of a written file: its entry and header count; the last segment that holds the header
      table, and where that puts it; the largest segment end; and the lowest start of a writable segment, or
      0x401000. */
  lemma MetaAsWritten(image: Bytes, e: Ehdr, ps: seq<RawPhdr>, bias: u64, k: nat, meta: ElfLoadedMeta)
    requires WrittenImage(image, e, ps) && MetaOf(image, bias, k, meta)
    ensures meta.entry == (e.entry + bias) % 0x1_0000_0000_0000_0000 && meta.phnum == |ps| && meta.phent == 56
    ensures k < |ps| && HoldsTable(e, ps[k]) && forall i | k < i < |ps| :: !HoldsTable(e, ps[i])
    ensures meta.phdr == At(ps[k], bias) + (e.phoff - ps[k].offset)
    ensures forall i | 0 <= i < |ps| && IsSegment(ps[i]) :: At(ps[i], bias) + ps[i].memsz <= meta.imageEnd
    ensures exists i :: 0 <= i < |ps| && IsSegment(ps[i]) && At(ps[i], bias) + ps[i].memsz == meta.imageEnd
    ensures (forall i | 0 <= i < |ps| :: !Writable(ps[i])) ==> meta.rwMin == 0x401000
    ensures (exists i :: 0 <= i < |ps| && Writable(ps[i])) ==>
              && (forall i | 0 <= i < |ps| && Writable(ps[i]) :: meta.rwMin <= At(ps[i], bias))
              && exists i :: 0 <= i < |ps| && Writable(ps[i]) && At(ps[i], bias) == meta.rwMin
  {
    hide PhdrAt, PhdrInBounds, EncodeEhdr, EncodePhdr, Phoff, Phnum, CheckHeader, Entry;
    EhdrReadBack(image, e);
    forall i: nat | i < |ps|
      ensures LoadableAt(image, |ps|, i) <==> IsSegment(ps[i])
      ensures IsSegment(ps[i]) ==>
                && PhdrAt(image, i).Seg(bias) == At(ps[i], bias) && PhdrAt(image, i).memsz == ps[i].memsz
                && PhdrAt(image, i).offset == ps[i].offset
                && (PhdrAt(image, i).PageFlags().writable <==> Writable(ps[i]))
                && (PhdrAt(image, i).Holds(Phoff(image)) <==> HoldsTable(e, ps[i]))
    {
      assert HeaderWritten(image, e, i, ps[i]);
      PhdrReadBack(image, i, ps[i]);
      SecondBit(ps[i].flags);
    }
    hide Phdr.Seg, Phdr.Holds, Phdr.PageFlags, HoldsTable, At, WrittenImage;
    var rw: Option<nat> :|
      && MetaFor(image, bias, |ps|, k, meta.imageEnd, rw, Some(meta.phdr))
      && meta.rwMin == if rw.Some? then rw.value else USER_TEXT_BASE + PAGE;
    assert LoadableAt(image, |ps|, k);
    if i: nat :| i < |ps| && Writable(ps[i]) {
      assert LoadableAt(image, |ps|, i);
    }
  }

  // ----- exactly how a file fails to load -----

  /** An image is too short for a file header exactly when it has fewer than 64 bytes. */
  lemma TooShort(image: Bytes)
    ensures CheckHeader(image) == Some(Truncated) <==> |image| < 64
  {
    hide FromLe;
  }

  /** Byte j of the segment is in the file and goes to an address of the machine on one of the pages. */
  predicate Copyable(image: Bytes, offset: nat, seg: nat, pages: set<nat>, j: nat) {
    offset + j < |image| && Half(seg + j) && (seg + j) / 4096 in pages
  }

  /** Byte c is the first that cannot be copied. */
  ghost predicate StuckAt(image: Bytes, offset: nat, filesz: nat, seg: nat, pages: set<nat>, c: nat) {
    && c < filesz && !Copyable(image, offset, seg, pages, c)
    && forall j: nat | j < c :: Copyable(image, offset, seg, pages, j)
  }

  /** The copy of a segment's bytes fails exactly at the first byte that cannot be copied, and the error says why: the
      end of the file before the address, the address before the page. */
  lemma CopyErrorMeans(image: Bytes, offset: nat, filesz: nat, seg: nat, pages: set<nat>)
    ensures var e := CopyError(image, offset, filesz, seg, pages);
            && (e == None <==> forall j: nat | j < filesz :: Copyable(image, offset, seg, pages, j))
            && forall c: nat | StuckAt(image, offset, filesz, seg, pages, c) ::
                 e == Some(if offset + c >= |image| then SegmentFileOob else if !Half(seg + c) then Panic
                           else Untranslated)
  {
    var k := Copied(image, offset, filesz, seg, pages, 0);
    forall j: nat ensures CanCopy(image, offset, seg, pages, j) <==> Copyable(image, offset, seg, pages, j) {
    }
    assert k < filesz ==> !CanCopy(image, offset, seg, pages, k);
  }

  /** A load into memory m stops at header i of the written file with this error: everything before it went well, and
      the error is that of the first thing wrong with it, in this order: its place, its alignment, its addresses, its pages,
      its bytes. */
  ghost predicate RawStops(m: Mem, image: Bytes, e: Ehdr, ps: seq<RawPhdr>, bias: u64, i: nat, err: ElfError)
    requires i <= |ps|
  {
    && (forall j: nat | j < i :: RawHeaderOk(e, ps, bias, j))
    && (forall j: nat | j < i && IsSegment(ps[j]) :: RawFileOk(m, image, ps, bias, j))
    && LoadRanges(m, RawRanges(ps, bias, i)).1 == Mapped
    && if i == |ps| then
         && err == NoPhdrInLoad
         && forall j: nat | j < |ps| && IsSegment(ps[j]) ::
              !(ps[j].offset <= e.phoff < Min(ps[j].offset + ps[j].filesz, 0xFFFF_FFFF_FFFF_FFFF))
       else if e.phoff + 56 * i + 56 >= 0x1_0000_0000_0000_0000 then err == Panic
       else if ps[i].kind == 1 && ps[i].align != 0 && ps[i].align != 4096 then err == UnsupportedAlign
       else if !RawHeaderOk(e, ps, bias, i) then err == Panic
       else
         && IsSegment(ps[i])
         && match LoadRanges(m, RawRanges(ps, bias, i + 1)).1
            case NoFrame => err == FrameOom
            case MapFailed => err == MapToFailed
            case Mapped =>
              CopyError(image, ps[i].offset, ps[i].filesz, At(ps[i], bias),
                        m.pt.Keys + PagesOf(RawRanges(ps, bias, i + 1))) == Some(err)
  }

  lemma StopsExactly(m: Mem, image: Bytes, e: Ehdr, ps: seq<RawPhdr>, bias: u64, i: nat, err: ElfError)
    requires WrittenImage(image, e, ps)
    ensures Justified(m, image, bias, i, err) <==> i <= |ps| && RawStops(m, image, e, ps, bias, i, err)
  {
    hide RawHeaderOk, RawFileOk, SegmentRanges, RawRanges, LoadRanges, CopyError, At, Reached, CheckHeader, Phoff,
         Entry, PhdrAt, PhdrInBounds, WrittenImage, CopyErrorAt, LoadableAt, Phdr.Fits, Phnum, HeaderOk;
    CountAsWritten(image, e, ps);
    if i <= |ps| {
      ReachedAsWritten(m, image, e, ps, bias, i);
      if i < |ps| {
        HeaderStops(m, image, e, ps, bias, i, err);
      } else {
        AllRead(m, image, e, ps, bias, err);
      }
    }
  }

  lemma CountAsWritten(image: Bytes, e: Ehdr, ps: seq<RawPhdr>)
    requires WrittenImage(image, e, ps)
    ensures |image| >= 64 && Phnum(image) == |ps|
  {
    hide PhdrAt, PhdrInBounds, EncodeEhdr, EncodePhdr, Phoff, Phnum, CheckHeader, Entry;
    EhdrReadBack(image, e);
  }

  lemma ReachedAsWritten(m: Mem, image: Bytes, e: Ehdr, ps: seq<RawPhdr>, bias: u64, i: nat)
    requires WrittenImage(image, e, ps) && i <= |ps|
    ensures Reached(m, image, bias, i) <==>
            && (forall j: nat | j < i :: RawHeaderOk(e, ps, bias, j))
            && (forall j: nat | j < i && IsSegment(ps[j]) :: RawFileOk(m, image, ps, bias, j))
            && LoadRanges(m, RawRanges(ps, bias, i)).1 == Mapped
  {
    hide PhdrAt, PhdrInBounds, EncodeEhdr, EncodePhdr, Phoff, Phnum, CheckHeader, Entry, RawHeaderOk, HeaderOk,
         RawFileOk, FileOk, SegmentRanges, RawRanges, PagesAt, LoadRanges, WrittenImage;
    CountAsWritten(image, e, ps);
    forall j: nat | j < i
      ensures HeaderOk(image, bias, j) <==> RawHeaderOk(e, ps, bias, j)
      ensures LoadableAt(image, i, j) <==> IsSegment(ps[j])
      ensures IsSegment(ps[j]) ==>
                (FileOk(image, bias, PhdrAt(image, j), PagesAt(m, image, bias, j)) <==>
                 RawFileOk(m, image, ps, bias, j))
    {
      HeaderAsWritten(m, image, e, ps, bias, j);
      assert LoadableAt(image, i, j) <==> LoadableAt(image, |ps|, j);
    }
    RangesAsWritten(image, e, ps, bias, i);
  }

  /** What can go wrong at a header that the load gets to. */
  lemma HeaderStops(m: Mem, image: Bytes, e: Ehdr, ps: seq<RawPhdr>, bias: u64, i: nat, err: ElfError)
    requires WrittenImage(image, e, ps) && i < |ps| && Phnum(image) == |ps|
    ensures Justified(m, image, bias, i, err) <==>
            && Reached(m, image, bias, i)
            && if e.phoff + 56 * i + 56 >= 0x1_0000_0000_0000_0000 then err == Panic
               else if ps[i].kind == 1 && ps[i].align != 0 && ps[i].align != 4096 then err == UnsupportedAlign
               else if !RawHeaderOk(e, ps, bias, i) then err == Panic
               else
                 && IsSegment(ps[i])
                 && match LoadRanges(m, RawRanges(ps, bias, i + 1)).1
                    case NoFrame => err == FrameOom
                    case MapFailed => err == MapToFailed
                    case Mapped =>
                      CopyError(image, ps[i].offset, ps[i].filesz, At(ps[i], bias),
                                m.pt.Keys + PagesOf(RawRanges(ps, bias, i + 1))) == Some(err)
  {
    hide PhdrAt, PhdrInBounds, Phoff, Phnum, CheckHeader, Entry, RawHeaderOk, RawFileOk, FileOk, SegmentRanges,
         RawRanges, LoadRanges, WrittenImage, CopyError, At, Phdr.Seg, Phdr.Fits, Reached;
    HeaderPlaced(image, e, ps, bias, i);
    HeaderAsWritten(m, image, e, ps, bias, i);
    RangesAsWritten(image, e, ps, bias, i + 1);
    CopyErrors(image, ps[i].offset, ps[i].filesz, At(ps[i], bias), m.pt.Keys + PagesOf(RawRanges(ps, bias, i + 1)));
  }

  lemma CopyErrors(image: Bytes, offset: nat, filesz: nat, seg: nat, pages: set<nat>)
    ensures var e := CopyError(image, offset, filesz, seg, pages);
            e in {None, Some(SegmentFileOob), Some(Panic), Some(Untranslated)}
  {
  }

  /** Behind the last header. */
  lemma AllRead(m: Mem, image: Bytes, e: Ehdr, ps: seq<RawPhdr>, bias: u64, err: ElfError)
    requires WrittenImage(image, e, ps) && Phnum(image) == |ps|
    ensures Justified(m, image, bias, |ps|, err) <==>
            && Reached(m, image, bias, |ps|) && err == NoPhdrInLoad
            && forall j: nat | j < |ps| && IsSegment(ps[j]) ::
                 !(ps[j].offset <= e.phoff < Min(ps[j].offset + ps[j].filesz, 0xFFFF_FFFF_FFFF_FFFF))
  {
    hide PhdrAt, PhdrInBounds, Phoff, Phnum, CheckHeader, Entry, WrittenImage, Phdr.Holds, Reached, HeaderOk,
         LoadRanges, SegmentRanges, CopyErrorAt;
    CountAsWritten(image, e, ps);
    forall j: nat | j < |ps|
      ensures LoadableAt(image, |ps|, j) <==> IsSegment(ps[j])
      ensures IsSegment(ps[j]) ==>
                (PhdrAt(image, j).Holds(Phoff(image)) <==>
                 ps[j].offset <= e.phoff < Min(ps[j].offset + ps[j].filesz, 0xFFFF_FFFF_FFFF_FFFF))
    {
      HeaderAsWritten(m, image, e, ps, bias, j);
    }
  }

  /** Where the loader finds header j and what it makes of it. */
  lemma HeaderPlaced(image: Bytes, e: Ehdr, ps: seq<RawPhdr>, bias: u64, j: nat)
    requires WrittenImage(image, e, ps) && j < |ps|
    ensures PhdrInBounds(image, j) && Phoff(image) + j * PHENT + PHENT == e.phoff + 56 * j + 56
    ensures var h := PhdrAt(image, j);
            && h.kind == ps[j].kind && h.align == ps[j].align && h.offset == ps[j].offset && h.filesz == ps[j].filesz
            && h.memsz == ps[j].memsz && h.Seg(bias) == At(ps[j], bias)
  {
    hide PhdrAt, PhdrInBounds, EncodeEhdr, EncodePhdr, Phoff, Phnum, CheckHeader, Entry;
    EhdrReadBack(image, e);
    assert HeaderWritten(image, e, j, ps[j]);
    PhdrReadBack(image, j, ps[j]);
  }
}
