/** The child's stack in `sys_fork` (src/process.rs): one page right above the parent's stack, the bytes from the
    parent's stack pointer up copied into it, and the stack pointer the child gets. */
module ForkStack {
  import opened Basics
  import opened Paging
  import opened UserMemory
  import opened AddressSpace

  const CHILD_STACK_TOP: nat := 0x403000

  function SaturatingSub(a: nat, b: nat): nat {
    if a < b then 0 else a - b
  }

  /** Where the copy starts. */
  function CopyTo(rsp: u64): nat {
    CHILD_STACK_LO + SaturatingSub(rsp, USER_STACK_TOP - PAGE)
  }

  /** The stack pointer in the child's record. */
  function ChildRsp(rsp: u64): u64 {
    SaturatingSub(CHILD_STACK_TOP, SaturatingSub(USER_STACK_TOP, rsp))
  }

  /** Every byte of [lo, lo + n) is mapped. */
  ghost predicate BytesMapped(pt: map<nat, Pte>, lo: nat, n: nat) {
    forall a: nat | lo <= a < lo + n :: PageOf(a) in pt
  }

  /** [dst, dst + n) holds what [src, src + n) held before. */
  ghost predicate Copied(pt: map<nat, Pte>, ram: map<nat, byte>, pt0: map<nat, Pte>, ram0: map<nat, byte>,
                         src: nat, dst: nat, n: nat) {
    forall a: nat | dst <= a < dst + n ::
      ReadVirt(pt, ram, a).Some? && ReadVirt(pt, ram, a) == ReadVirt(pt0, ram0, a - dst + src)
  }

  lemma MappedReads(s: Space, a: nat)
    requires s.Valid() && Owned(s.View()) && PageOf(a) in s.pt
    ensures ReadVirt(s.pt, s.ram, a).Some?
  {
    assert s.pt[PageOf(a)].frame < 65536;
  }

  /** Byte by byte through both translations, up to the first byte that is not mapped on both sides. It succeeds exactly
      when both ranges are mapped throughout; `done` bytes are copied and nothing else is touched. */
  method CopyUserPages(s: Space, src: nat, dst: nat, len: nat) returns (ok: bool, ghost done: nat)
    requires s.Valid() && Owned(s.View()) && src + len <= dst
    modifies s`ram
    ensures s.Valid()
    ensures ok <==> BytesMapped(s.pt, src, len) && BytesMapped(s.pt, dst, len)
    ensures done <= len && (ok <==> done == len)
    ensures BytesMapped(s.pt, src, done) && BytesMapped(s.pt, dst, done)
    ensures !ok ==> PageOf(src + done) !in s.pt || PageOf(dst + done) !in s.pt
    ensures Copied(s.pt, s.ram, s.pt, old(s.ram), src, dst, done)
    ensures OthersKept(s.pt, old(s.ram), s.ram, dst, done)
    ensures Confined(s.View(), old(s.ram), s.View(), s.ram)
  {
    hide Owned, Universe, ReadVirt, Confined, Copied, OthersKept, BytesMapped, PageOf, PhysOf;
    ConfinedQuietly(s.View(), s.View(), s.ram);
    CopyStart(s.pt, s.ram, src, dst);
    for i := 0 to len
      invariant s.Valid() && Confined(s.View(), old(s.ram), s.View(), s.ram)
      invariant BytesMapped(s.pt, src, i) && BytesMapped(s.pt, dst, i)
      invariant Copied(s.pt, s.ram, s.pt, old(s.ram), src, dst, i) && OthersKept(s.pt, old(s.ram), s.ram, dst, i)
    {
      if PageOf(src + i) !in s.pt || PageOf(dst + i) !in s.pt {
        NotMapped(s.pt, src, dst, i, len);
        return false, i;
      }
      MappedReads(s, src + i);
      var b := ReadVirt(s.pt, s.ram, src + i).value;
      ghost var before := s.ram;
      var _ := s.WriteByte(dst + i, b);
      ConfinedTwice(s.View(), old(s.ram), s.View(), before, s.View(), s.ram);
      CopyOne(s.pt, old(s.ram), before, s.ram, src, dst, i);
    }
    ok, done := true, len;
  }

  /** The bytes outside [dst, dst + n) read as before. */
  ghost predicate OthersKept(pt: map<nat, Pte>, ram: map<nat, byte>, ram': map<nat, byte>, dst: nat, n: nat) {
    forall a: nat | PageOf(a) in pt && !(dst <= a < dst + n) :: ReadVirt(pt, ram', a) == ReadVirt(pt, ram, a)
  }

  lemma CopyStart(pt: map<nat, Pte>, ram: map<nat, byte>, src: nat, dst: nat)
    ensures BytesMapped(pt, src, 0) && BytesMapped(pt, dst, 0) && Copied(pt, ram, pt, ram, src, dst, 0)
    ensures OthersKept(pt, ram, ram, dst, 0)
  {
  }

  lemma NotMapped(pt: map<nat, Pte>, src: nat, dst: nat, i: nat, len: nat)
    requires i < len && (PageOf(src + i) !in pt || PageOf(dst + i) !in pt)
    ensures !BytesMapped(pt, src, len) || !BytesMapped(pt, dst, len)
  {
    var a: nat, b: nat := src + i, dst + i;
    assert PageOf(a) !in pt || PageOf(b) !in pt;
  }

  lemma CopyOne(pt: map<nat, Pte>, ram: map<nat, byte>, ram1: map<nat, byte>, ram2: map<nat, byte>, src: nat, dst: nat,
                i: nat)
    requires src + i < dst && PageOf(src + i) in pt && PageOf(dst + i) in pt
    requires BytesMapped(pt, src, i) && BytesMapped(pt, dst, i)
    requires Copied(pt, ram1, pt, ram, src, dst, i) && OthersKept(pt, ram, ram1, dst, i)
    requires ReadVirt(pt, ram2, dst + i).Some? && ReadVirt(pt, ram2, dst + i) == ReadVirt(pt, ram1, src + i)
    requires forall v: nat | v != dst + i && PageOf(v) in pt :: ReadVirt(pt, ram2, v) == ReadVirt(pt, ram1, v)
    ensures BytesMapped(pt, src, i + 1) && BytesMapped(pt, dst, i + 1)
    ensures Copied(pt, ram2, pt, ram, src, dst, i + 1) && OthersKept(pt, ram, ram2, dst, i + 1)
  {
    hide ReadVirt;
  }

  /** What the page loop leaves: at most the child's page is new. */
  ghost function WithChildPage(m: Mem): (Mem, MapResult) {
    MapRange(m, PageOf(CHILD_STACK_LO), 1, HEAP_FLAGS, true)
  }

  /** The child's stack can be prepared: the stack pointer lies below 0x402000, the child's page is mapped or can be,
      and both the parent's bytes from the pointer up and their destination are then mapped. */
  ghost predicate CanPrepare(m: Mem, rsp: u64) {
    var (m1, r) := WithChildPage(m);
    && r == Mapped && rsp < 0x402000
    && BytesMapped(m1.pt, rsp, 0x402000 - rsp) && BytesMapped(m1.pt, CopyTo(rsp), 0x402000 - rsp)
  }

  /** The n bytes from rsp up are mapped, and so are those they go to, and there are no more below 0x402000 or the next
      one is not mapped on both sides. */
  ghost predicate CopyEnds(pt: map<nat, Pte>, rsp: u64, n: nat) {
    && rsp + n <= 0x402000 && BytesMapped(pt, rsp, n) && BytesMapped(pt, CopyTo(rsp), n)
    && (rsp + n == 0x402000 || PageOf(rsp + n) !in pt || PageOf(CopyTo(rsp) + n) !in pt)
  }

  /** Fork copies n bytes, whether it then succeeds or not. */
  ghost predicate Copies(m: Mem, rsp: u64, n: nat) {
    var (m1, r) := WithChildPage(m);
    if r != Mapped || rsp >= 0x402000 then n == 0 else CopyEnds(m1.pt, rsp, n)
  }

  /** The number of bytes is determined, and all are copied exactly when the stack can be prepared. */
  lemma CopiesOnce(m: Mem, rsp: u64, n: nat, k: nat)
    requires Copies(m, rsp, n) && Copies(m, rsp, k)
    ensures n == k && (CanPrepare(m, rsp) <==> n > 0 && rsp + n == 0x402000)
  {
    hide WithChildPage, CopyTo;
    var pt := WithChildPage(m).0.pt;
    if WithChildPage(m).1 == Mapped && rsp < 0x402000 {
      CopyStops(pt, rsp, n, k);
      CopyStops(pt, rsp, k, n);
      if CanPrepare(m, rsp) {
        CopyStops(pt, rsp, 0x402000 - rsp, n);
      }
    }
  }

  /** A copy that ends after k bytes goes no further. */
  lemma CopyStops(pt: map<nat, Pte>, rsp: u64, n: nat, k: nat)
    requires BytesMapped(pt, rsp, n) && BytesMapped(pt, CopyTo(rsp), n) && rsp + n <= 0x402000 && CopyEnds(pt, rsp, k)
    ensures n <= k
  {
    hide CopyTo;
    var a: nat, b: nat := rsp + k, CopyTo(rsp) + k;
    assert a < rsp + n ==> PageOf(a) in pt;
    assert b < CopyTo(rsp) + n ==> PageOf(b) in pt;
  }

  /** The stack can be prepared exactly when a page for the child is there or can be, all pages from the pointer's up to
      0x401 are mapped, and as many from 0x402 up. A pointer on the parent's stack page takes no more than that page and
      the child's, one below it the text page 0x400 and the gap page 0x403 as well; one above is never good. */
  lemma PrepareExactly(m: Mem, rsp: u64)
    ensures CanPrepare(m, rsp) <==>
            && rsp < 0x402000 && WithChildPage(m).1 == Mapped
            && forall p: nat | rsp / 4096 <= p < 0x804 - rsp / 4096 && p != 0x402 :: p in m.pt
    ensures 0x401000 <= rsp < 0x402000 ==> (CanPrepare(m, rsp) <==> 0x401 in m.pt && WithChildPage(m).1 == Mapped)
    ensures 0x400000 <= rsp < 0x401000 ==>
              (CanPrepare(m, rsp) <==>
               0x400 in m.pt && 0x401 in m.pt && 0x403 in m.pt && WithChildPage(m).1 == Mapped)
    ensures rsp < 0x401000 && CanPrepare(m, rsp) ==> 0x400 in m.pt && 0x403 in m.pt
    ensures rsp >= 0x402000 ==> !CanPrepare(m, rsp)
    ensures 0x402 in m.pt ==> WithChildPage(m) == (m, Mapped)
  {
    hide CanPrepare, WithChildPage;
    PagesTaken(m, rsp);
    ChildPageThere(m);
  }

  lemma PagesTaken(m: Mem, rsp: u64)
    ensures CanPrepare(m, rsp) <==>
            && rsp < 0x402000 && WithChildPage(m).1 == Mapped
            && forall p: nat | rsp / 4096 <= p < 0x804 - rsp / 4096 && p != 0x402 :: p in m.pt
  {
    hide BytesMapped, CopyTo, WithChildPage;
    ChildPageThere(m);
    if rsp < 0x402000 {
      BothSides(WithChildPage(m).0.pt, rsp);
    }
  }

  /** The pages on both sides of 0x402000 that the copy takes. */
  lemma BothSides(pt: map<nat, Pte>, rsp: u64)
    requires rsp < 0x402000
    ensures BytesMapped(pt, rsp, 0x402000 - rsp) && BytesMapped(pt, CopyTo(rsp), 0x402000 - rsp) <==>
            forall p: nat | rsp / 4096 <= p < 0x804 - rsp / 4096 :: p in pt
  {
    hide BytesMapped;
    RangePages(pt, rsp, 0x402000 - rsp);
    RangePages(pt, CopyTo(rsp), 0x402000 - rsp);
    var first := rsp / 4096;
    assert forall p: nat :: p * 4096 < 0x402000 <==> p < 0x402;
    assert PageOf(CopyTo(rsp)) == 0x402;
    assert forall p: nat | 0x402 <= p :: p * 4096 < CopyTo(rsp) + (0x402000 - rsp) <==> p < 0x804 - first;
  }

  /** A range is mapped when the pages that meet it are. */
  lemma RangePages(pt: map<nat, Pte>, lo: nat, n: nat)
    requires n > 0
    ensures BytesMapped(pt, lo, n) <==> forall p: nat | PageOf(lo) <= p && p * 4096 < lo + n :: p in pt
  {
    if BytesMapped(pt, lo, n) {
      forall p: nat | PageOf(lo) <= p && p * 4096 < lo + n ensures p in pt {
        var a := if p * 4096 < lo then lo else p * 4096;
        assert PageOf(a) == p;
      }
    }
    if forall p: nat | PageOf(lo) <= p && p * 4096 < lo + n :: p in pt {
      forall a: nat | lo <= a < lo + n ensures PageOf(a) in pt {
        assert PageOf(lo) <= PageOf(a) && PageOf(a) * 4096 < lo + n;
      }
    }
  }

  /** Fork prepares the child's stack if and only if it can. Then the copy is there; in any case `Copies` says how many
      bytes are copied, every other byte mapped before is as it was, and the rest of a new page for the child shows what
      its frame held. With the pointer on the parent's stack page, a byte that was mapped before changes only if the
      child's page was already there, and the child's page holds at the pointer moved for it what the parent has at its
      own. */
  method MapChildStackAndCopy(s: Space, rsp: u64) returns (ok: bool, ghost done: nat)
    requires s.Valid() && Owned(s.View())
    modifies s, s.frames, s.frames.bitmap
    ensures s.Valid() && Owned(s.View()) && s.View() == WithChildPage(old(s.View())).0
    ensures ok <==> CanPrepare(old(s.View()), rsp)
    ensures Copies(old(s.View()), rsp, done) && Confined(old(s.View()), old(s.ram), s.View(), s.ram)
    ensures WithChildPage(old(s.View())).1 != Mapped || rsp >= 0x402000 ==> done == 0
    ensures done > 0 ==> done <= 0x402000 - rsp && (ok <==> done == 0x402000 - rsp)
    ensures Copied(s.pt, s.ram, old(s.pt), old(s.ram), rsp, CopyTo(rsp), done)
    ensures forall a: nat | PageOf(a) in old(s.pt) && !(CopyTo(rsp) <= a < CopyTo(rsp) + done) ::
              ReadVirt(s.pt, s.ram, a) == ReadVirt(old(s.pt), old(s.ram), a)
    ensures OthersKept(s.pt, old(s.ram), s.ram, CopyTo(rsp), done)
    ensures 0x401000 <= rsp && 0x402 !in old(s.pt) ==> SameView(old(s.pt), old(s.ram), s.pt, s.ram)
    ensures ok && 0x401000 <= rsp ==>
              forall b: nat | rsp <= b < 0x402000 ::
                && ReadVirt(s.pt, s.ram, b).Some? && ReadVirt(s.pt, s.ram, b) == ReadVirt(old(s.pt), old(s.ram), b)
                && ReadVirt(s.pt, s.ram, b - rsp + ChildRsp(rsp)) == ReadVirt(s.pt, s.ram, b)
  {
    hide Owned, Universe, MapRange, ReadVirt, BytesMapped, Copied, CopyTo, ChildRsp, Confined;
    ghost var m := s.View();
    MapRangeKeeps(m, PageOf(CHILD_STACK_LO), 1, HEAP_FLAGS, true);
    MapRangePages(m, PageOf(CHILD_STACK_LO), 1, HEAP_FLAGS, true);
    var r := s.MapPages(PageOf(CHILD_STACK_LO), 1, HEAP_FLAGS, true);
    PageAdded(m.pt, s.pt, s.ram);
    ConfinedQuietly(m, s.View(), s.ram);
    done := 0;
    NoneCopied(s.pt, s.ram, m.pt, rsp);
    if r != Mapped || rsp >= USER_STACK_TOP {
      return false, done;
    }
    ghost var ram0 := s.ram;
    CopyIsAbove(rsp);
    ok, done := CopyUserPages(s, rsp, CopyTo(rsp), USER_STACK_TOP - rsp);
    ConfinedTwice(m, ram0, s.View(), ram0, s.View(), s.ram);
    SameSource(s.pt, s.ram, m.pt, ram0, rsp, done);
    if ok {
      MirroredFrom(s.pt, s.ram, m.pt, ram0, rsp);
    }
  }

  lemma NoneCopied(pt: map<nat, Pte>, ram: map<nat, byte>, pt0: map<nat, Pte>, rsp: u64)
    ensures Copied(pt, ram, pt0, ram, rsp, CopyTo(rsp), 0)
  {
  }

  lemma CopyIsAbove(rsp: u64)
    requires rsp < USER_STACK_TOP
    ensures USER_STACK_TOP <= CopyTo(rsp)
    ensures 0x401000 <= rsp ==> CopyTo(rsp) + (0x402000 - rsp) == 0x403000
  {
  }

  /** A page table that gains at most the child's page shows the same bytes. */
  lemma PageAdded(pt: map<nat, Pte>, pt': map<nat, Pte>, ram: map<nat, byte>)
    requires forall p | p in pt :: p in pt' && pt'[p] == pt[p]
    ensures forall a: nat | PageOf(a) in pt :: ReadVirt(pt', ram, a) == ReadVirt(pt, ram, a)
  {
  }

  lemma SameSource(pt: map<nat, Pte>, ram: map<nat, byte>, pt0: map<nat, Pte>, ram0: map<nat, byte>, rsp: u64,
                   n: nat)
    requires rsp + n <= 0x402000 && Copied(pt, ram, pt, ram0, rsp, CopyTo(rsp), n)
    requires BytesMapped(pt, rsp, n) && forall p | p in pt && p !in pt0 :: p == 0x402
    requires forall a: nat | PageOf(a) in pt0 :: ReadVirt(pt, ram0, a) == ReadVirt(pt0, ram0, a)
    ensures Copied(pt, ram, pt0, ram0, rsp, CopyTo(rsp), n) && BytesMapped(pt0, rsp, n)
  {
    hide ReadVirt, CopyTo;
    forall b: nat | rsp <= b < rsp + n ensures PageOf(b) in pt0 {
      assert PageOf(b) in pt && PageOf(b) < 0x402;
    }
  }

  /** With the parent's pointer on its stack page, the copy is where the child's pointer says. */
  lemma MirroredFrom(pt: map<nat, Pte>, ram: map<nat, byte>, pt0: map<nat, Pte>, ram0: map<nat, byte>, rsp: u64)
    requires rsp < 0x402000 && Copied(pt, ram, pt0, ram0, rsp, CopyTo(rsp), 0x402000 - rsp)
    requires BytesMapped(pt0, rsp, 0x402000 - rsp)
    requires forall a: nat | PageOf(a) in pt0 && !(CopyTo(rsp) <= a < CopyTo(rsp) + (0x402000 - rsp)) ::
               ReadVirt(pt, ram, a) == ReadVirt(pt0, ram0, a)
    ensures 0x401000 <= rsp ==>
              forall b: nat | rsp <= b < 0x402000 ::
                && ReadVirt(pt, ram, b).Some? && ReadVirt(pt, ram, b) == ReadVirt(pt0, ram0, b)
                && ReadVirt(pt, ram, b - rsp + ChildRsp(rsp)) == ReadVirt(pt, ram, b)
  {
    hide ReadVirt;
    if 0x401000 <= rsp {
      forall b: nat | rsp <= b < 0x402000
        ensures ReadVirt(pt, ram, b).Some? && ReadVirt(pt, ram, b) == ReadVirt(pt0, ram0, b)
        ensures ReadVirt(pt, ram, b - rsp + ChildRsp(rsp)) == ReadVirt(pt, ram, b)
      {
        var a := b - rsp + CopyTo(rsp);
        assert a - CopyTo(rsp) + rsp == b;
        assert ReadVirt(pt, ram, a).Some? && ReadVirt(pt, ram, a) == ReadVirt(pt0, ram0, b);
        assert PageOf(b) in pt0;
      }
    }
  }

  /** A stack pointer below 0x402000 becomes the same offset in the child's page, or below it. The copy lies where that
      pointer says exactly when the parent's pointer is on its stack page; from a pointer below 0x401000 the child's
      would be off by the distance. */
  lemma MirrorExactly(rsp: u64)
    requires rsp < 0x402000
    ensures ChildRsp(rsp) == rsp + 0x1000
    ensures CopyTo(rsp) == ChildRsp(rsp) <==> rsp >= 0x401000
  {
  }

  /** A fork that is refused has copied something exactly when its pointer lies below the parent's stack page on a page
      that is mapped and the child's page is there or can be. It has written over bytes that were mapped before exactly
      when, on top of that, the child's page was there already, or the gap page 0x403 and the page after the pointer's
      are. */
  lemma RefusedExactly(m: Mem, rsp: u64, n: nat)
    requires Copies(m, rsp, n) && !CanPrepare(m, rsp)
    ensures n > 0 <==> WithChildPage(m).1 == Mapped && rsp < 0x401000 && rsp / 4096 in m.pt
    ensures (exists a: nat :: CopyTo(rsp) <= a < CopyTo(rsp) + n && PageOf(a) in m.pt) <==>
            && WithChildPage(m).1 == Mapped && rsp < 0x401000 && rsp / 4096 in m.pt
            && (0x402 in m.pt || (0x403 in m.pt && rsp / 4096 + 1 in m.pt))
  {
    hide CanPrepare, WithChildPage;
    ChildPageThere(m);
    PrepareExactly(m, rsp);
    var pt := WithChildPage(m).0.pt;
    if WithChildPage(m).1 == Mapped && rsp < 0x402000 {
      CopyBegins(pt, rsp, n);
      if n > 0 {
        assert PageOf(CopyTo(rsp)) == 0x402;
      }
      forall a: nat | CopyTo(rsp) <= a < CopyTo(rsp) + n && PageOf(a) in m.pt ensures 0x402 in m.pt || n > 0x1000 {
        assert PageOf(a) != 0x402 ==> a >= 0x403000;
      }
      if n > 0x1000 {
        assert PageOf(0x403000) == 0x403;
      }
    }
  }

  /** How a copy begins, page by page. */
  lemma CopyBegins(pt: map<nat, Pte>, rsp: u64, n: nat)
    requires rsp < 0x402000 && 0x402 in pt && CopyEnds(pt, rsp, n)
    ensures n > 0 <==> rsp / 4096 in pt
    ensures rsp < 0x401000 ==>
              && CopyTo(rsp) == 0x402000
              && (n > 0x1000 <==> rsp / 4096 in pt && rsp / 4096 + 1 in pt && 0x403 in pt)
    ensures rsp < 0x401000 && rsp / 4096 in pt && rsp / 4096 + 1 in pt && 0x403 !in pt ==> n == 0x1000
  {
    if n > 0 {
      assert PageOf(rsp) in pt;
    }
    if rsp < 0x401000 {
      if n > 0x1000 {
        assert PageOf(rsp + 0x1000) == rsp / 4096 + 1 && PageOf(0x402000 + 0x1000) == 0x403;
      } else {
        assert PageOf(rsp + n) == rsp / 4096 || PageOf(rsp + n) == rsp / 4096 + 1;
        assert PageOf(0x402000 + n) == if n < 0x1000 then 0x402 else 0x403;
      }
    }
  }

  /** So a fork from below the stack page is refused when the gap page 0x403 is unmapped, and has first written a page
      full of other bytes over the stack of the child that is there. */
  method RefusedForkOverwrites(s: Space, rsp: u64) returns (ok: bool)
    requires s.Valid() && Owned(s.View()) && rsp < 0x401000
    requires rsp / 4096 in s.pt && rsp / 4096 + 1 in s.pt && 0x402 in s.pt && 0x403 !in s.pt
    modifies s, s.frames, s.frames.bitmap
    ensures !ok && s.Valid() && s.View() == old(s.View())
    ensures forall a: nat | 0x402000 <= a < 0x403000 ::
              && ReadVirt(s.pt, s.ram, a).Some?
              && ReadVirt(s.pt, s.ram, a) == ReadVirt(old(s.pt), old(s.ram), a - 0x402000 + rsp)
  {
    hide Owned, ReadVirt, CanPrepare, WithChildPage, BytesMapped;
    PrepareExactly(s.View(), rsp);
    ghost var m := s.View();
    ghost var done;
    ok, done := MapChildStackAndCopy(s, rsp);
    CopyBegins(m.pt, rsp, done);
  }

  /** All children share the one page: the parent forks, stores x on its stack and forks again, and where the first
      child found the old byte there is now x. */
  method ForkTwice(s: Space, rsp: u64, x: byte) returns (ghost first: Option<byte>)
    requires s.Valid() && Owned(s.View()) && 0x401000 <= rsp < 0x402000 && CanPrepare(s.View(), rsp)
    modifies s, s.frames, s.frames.bitmap
    ensures s.Valid() && Owned(s.View()) && s.View() == WithChildPage(old(s.View())).0
    ensures first == ReadVirt(old(s.pt), old(s.ram), rsp) && first.Some?
    ensures ReadVirt(s.pt, s.ram, rsp + 0x1000) == Some(x)
  {
    hide Owned, ReadVirt, CanPrepare, WithChildPage;
    PrepareExactly(s.View(), rsp);
    MirrorExactly(rsp);
    ChildPageThere(s.View());
    var _, _ := MapChildStackAndCopy(s, rsp);
    first := ReadVirt(s.pt, s.ram, rsp + 0x1000);
    PrepareExactly(s.View(), rsp);
    var _ := s.WriteByte(rsp, x);
    var _, _ := MapChildStackAndCopy(s, rsp);
  }

  /** A page loop that succeeds leaves the child's page mapped, and no loop changes another; one that finds it mapped
      changes nothing. */
  lemma ChildPageThere(m: Mem)
    ensures var (m1, r) := WithChildPage(m);
            && (r == Mapped <==> 0x402 in m1.pt) && (forall p | p != 0x402 :: p in m1.pt <==> p in m.pt)
            && (0x402 in m.pt ==> m1 == m)
  {
    hide AllocAndMap;
    AllocAndMapPages(m, 0x402, HEAP_FLAGS);
  }
}
