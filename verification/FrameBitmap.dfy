/**
 The physical frame allocator of src/memory.rs: an array of bytes, one bit per 4 KiB frame, together with
 its free counter. `FreeSet` is the abstract value of the bit array; every method is specified on it.
 */
module FrameBitmap {
  import opened Basics

  const BITMAP_BYTES: nat := 8192
  const FRAME_BITMAP_BITS: nat := 65536

  /** Frames of the legacy video window 0xA0000..0xC0000. */
  const VGA_FIRST: nat := 0xA0000 / PAGE
  const VGA_END: nat := 0xC0000 / PAGE

  // ----- single bits -----

  function Mask(b: nat): bv8
    requires b < 8
  {
    if b == 0 then 1 else if b == 1 then 2 else if b == 2 then 4 else if b == 3 then 8
    else if b == 4 then 16 else if b == 5 then 32 else if b == 6 then 64 else 128
  }

  predicate Bit(x: bv8, b: nat)
    requires b < 8
  {
    x & Mask(b) != 0
  }

  lemma MasksDisjoint(b: nat, k: nat)
    requires b < 8 && k < 8 && b != k
    ensures Mask(b) & Mask(k) == 0 && !Mask(b) & Mask(k) == Mask(k)
  {
  }

  lemma BitAlgebra(x: bv8, m: bv8, n: bv8)
    ensures (x & !m) & m == 0 && (x | m) & m == m
    ensures (x & !m) & n == x & (!m & n) && (x | m) & n == (x & n) | (m & n)
    ensures (x & n) | 0 == x & n
  {
  }

  lemma ClearBit(x: bv8, b: nat, k: nat)
    requires b < 8 && k < 8
    ensures Bit(x & !Mask(b), k) == (k != b && Bit(x, k))
  {
    BitAlgebra(x, Mask(b), Mask(k));
    if k != b {
      MasksDisjoint(b, k);
    }
  }

  lemma SetBit(x: bv8, b: nat, k: nat)
    requires b < 8 && k < 8
    ensures Bit(x | Mask(b), k) == (k == b || Bit(x, k))
  {
    BitAlgebra(x, Mask(b), Mask(k));
    if k != b {
      MasksDisjoint(b, k);
    }
  }

  /** `(!byte).trailing_zeros()`: the position of the lowest clear bit. */
  function LowestClear(x: bv8): (n: nat)
    requires x != 0xFF
    ensures n < 8 && !Bit(x, n)
    ensures forall k: nat | k < n :: Bit(x, k)
  {
    if !Bit(x, 0) then 0 else if !Bit(x, 1) then 1 else if !Bit(x, 2) then 2 else if !Bit(x, 3) then 3
    else if !Bit(x, 4) then 4 else if !Bit(x, 5) then 5 else if !Bit(x, 6) then 6 else 7
  }

  // ----- the whole bitmap -----

  predicate IsFree(bm: seq<bv8>, i: nat)
    requires i < 8 * |bm|
  {
    !Bit(bm[i / 8], i % 8)
  }

  ghost function FreeBelow(bm: seq<bv8>, n: nat): set<nat>
    requires n <= 8 * |bm|
  {
    set i: nat | i < n && IsFree(bm, i)
  }

  ghost function FreeSet(bm: seq<bv8>): set<nat> {
    FreeBelow(bm, 8 * |bm|)
  }

  lemma FreeBelowStep(bm: seq<bv8>, n: nat)
    requires n < 8 * |bm|
    ensures |FreeBelow(bm, n + 1)| == |FreeBelow(bm, n)| + if IsFree(bm, n) then 1 else 0
  {
    hide IsFree;
    if IsFree(bm, n) {
      assert FreeBelow(bm, n + 1) == FreeBelow(bm, n) + {n};
    } else {
      assert FreeBelow(bm, n + 1) == FreeBelow(bm, n);
    }
  }

  /** Overwriting one byte so that exactly bit `i` takes the value `used` changes the free set at `i` only. */
  lemma AfterByteUpdate(bm: seq<bv8>, i: nat, y: bv8, used: bool)
    requires i < 8 * |bm|
    requires forall k: nat | k < 8 :: Bit(y, k) == if k == i % 8 then used else Bit(bm[i / 8], k)
    ensures FreeSet(bm[i / 8 := y]) == if used then FreeSet(bm) - {i} else FreeSet(bm) + {i}
  {
    hide Bit;
    var bm' := bm[i / 8 := y];
    forall k: nat | k < 8 * |bm|
      ensures IsFree(bm', k) == if k == i then !used else IsFree(bm, k)
    {
      assert k != i ==> k / 8 != i / 8 || k % 8 != i % 8;
    }
  }

  lemma AfterMarkUsed(bm: seq<bv8>, i: nat)
    requires i < 8 * |bm|
    ensures FreeSet(bm[i / 8 := bm[i / 8] | Mask(i % 8)]) == FreeSet(bm) - {i}
  {
    hide Bit, FreeSet;
    var x := bm[i / 8];
    var y := x | Mask(i % 8);
    forall k: nat | k < 8 ensures Bit(y, k) == (k == i % 8 || Bit(x, k)) {
      SetBit(x, i % 8, k);
    }
    AfterByteUpdate(bm, i, y, true);
  }

  lemma AfterMarkFree(bm: seq<bv8>, i: nat)
    requires i < 8 * |bm|
    ensures FreeSet(bm[i / 8 := bm[i / 8] & !Mask(i % 8)]) == FreeSet(bm) + {i}
  {
    hide Bit, FreeSet;
    var x := bm[i / 8];
    var y := x & !Mask(i % 8);
    forall k: nat | k < 8 ensures Bit(y, k) == (k != i % 8 && Bit(x, k)) {
      ClearBit(x, i % 8, k);
    }
    AfterByteUpdate(bm, i, y, false);
  }

  lemma FullByte(bm: seq<bv8>, i: nat)
    requires i < |bm| && bm[i] == 0xFF
    ensures forall k: nat | 8 * i <= k < 8 * i + 8 :: !IsFree(bm, k)
  {
    assert forall b: nat | b < 8 :: Bit(0xFF, b);
    assert forall k: nat | 8 * i <= k < 8 * i + 8 :: k / 8 == i;
  }

  /** The lowest clear bit of the first byte that has one is the lowest free frame. */
  lemma FirstFree(bm: seq<bv8>, i: nat, frame: nat)
    requires i < |bm| && bm[i] != 0xFF && frame == 8 * i + LowestClear(bm[i])
    requires forall k: nat | k < 8 * i :: !IsFree(bm, k)
    ensures FreeSet(bm) != {} && frame == Lowest(FreeSet(bm))
  {
    hide Bit;
    assert frame / 8 == i && frame % 8 == LowestClear(bm[i]);
    forall k: nat | k < frame
      ensures !IsFree(bm, k)
    {
      assert k >= 8 * i ==> k / 8 == i && k % 8 < LowestClear(bm[i]);
    }
    assert frame in FreeSet(bm);
  }

  // ----- what the operations do to the free set -----

  /** A freed index that is out of range, zero or already free changes nothing. */
  ghost function FreeSpec(free: set<nat>, frame: nat): set<nat> {
    if 0 < frame < FRAME_BITMAP_BITS then free + {frame} else free
  }

  datatype MemoryRegion = MemoryRegion(usable: bool, start: nat, end: nat)

  ghost predicate InUsable(regions: seq<MemoryRegion>, i: nat) {
    exists r :: r in regions && r.usable && r.start <= i < r.end
  }

  predicate Reserved(i: nat) {
    i == 0 || VGA_FIRST <= i < VGA_END
  }

  /** The frames free after boot: those of usable regions, without page zero and the video window. */
  ghost function BootFree(regions: seq<MemoryRegion>): set<nat> {
    set i: nat | i < FRAME_BITMAP_BITS && InUsable(regions, i) && !Reserved(i)
  }

  class BitmapFrameAllocator {
    const bitmap: array<bv8>
    /** FREE_COUNT */
    var freeCount: nat

    ghost predicate Valid()
      reads this, bitmap
    {
      bitmap.Length == BITMAP_BYTES && freeCount == |Free()|
    }

    ghost function Free(): set<nat>
      reads this, bitmap
    {
      FreeSet(bitmap[..])
    }

    constructor (regions: seq<MemoryRegion>)
      ensures Valid() && fresh(bitmap)
      ensures Free() == BootFree(regions)
    {
      bitmap := new bv8[BITMAP_BYTES](_ => 0xFF);
      freeCount := 0;
      new;
      assert forall k: nat | k < 8 :: Bit(0xFF, k);
      assert Free() == {};
      for i := 0 to |regions|
        invariant bitmap.Length == BITMAP_BYTES
        invariant Free() == set k: nat | k < FRAME_BITMAP_BITS && InUsable(regions[..i], k)
      {
        var r := regions[i];
        assert regions[..i + 1] == regions[..i] + [r];
        if r.usable {
          FreeRegion(r, regions[..i]);
        } else {
          assert forall k: nat :: InUsable(regions[..i + 1], k) <==> InUsable(regions[..i], k);
        }
      }
      assert regions[..|regions|] == regions;
      MarkUsed(0);
      for idx := VGA_FIRST to VGA_END
        invariant bitmap.Length == BITMAP_BYTES
        invariant Free() == set k: nat | k < FRAME_BITMAP_BITS && InUsable(regions, k)
                                         && k != 0 && !(VGA_FIRST <= k < idx)
      {
        MarkUsed(idx);
      }
      freeCount := CountFree();
    }

    /** The inner loop of `new`: release every frame of one usable region that the bitmap can track. */
    method FreeRegion(r: MemoryRegion, ghost before: seq<MemoryRegion>)
      requires bitmap.Length == BITMAP_BYTES && r.usable
      requires Free() == set k: nat | k < FRAME_BITMAP_BITS && InUsable(before, k)
      modifies bitmap
      ensures Free() == set k: nat | k < FRAME_BITMAP_BITS && InUsable(before + [r], k)
    {
      var f := r.start;
      while f < r.end
        invariant r.start <= f
        invariant f <= r.end || r.end <= r.start == f
        invariant Free() == set k: nat | k < FRAME_BITMAP_BITS && (InUsable(before, k) || r.start <= k < f)
      {
        MarkFree(f);
        f := f + 1;
      }
      assert forall k: nat :: InUsable(before + [r], k) <==> InUsable(before, k) || r.start <= k < r.end;
    }

    method MarkFree(idx: nat)
      requires bitmap.Length == BITMAP_BYTES
      modifies bitmap
      ensures Free() == if idx < FRAME_BITMAP_BITS then old(Free()) + {idx} else old(Free())
    {
      if idx >= FRAME_BITMAP_BITS {
        return;
      }
      ghost var was := bitmap[..];
      bitmap[idx / 8] := bitmap[idx / 8] & !Mask(idx % 8);
      assert bitmap[..] == was[idx / 8 := was[idx / 8] & !Mask(idx % 8)];
      AfterMarkFree(was, idx);
    }

    method MarkUsed(idx: nat)
      requires bitmap.Length == BITMAP_BYTES
      modifies bitmap
      ensures Free() == old(Free()) - {idx}
    {
      if idx >= FRAME_BITMAP_BITS {
        return;
      }
      ghost var was := bitmap[..];
      bitmap[idx / 8] := bitmap[idx / 8] | Mask(idx % 8);
      assert bitmap[..] == was[idx / 8 := was[idx / 8] | Mask(idx % 8)];
      AfterMarkUsed(was, idx);
    }

    method CountFree() returns (n: nat)
      requires bitmap.Length == BITMAP_BYTES
      ensures n == |Free()|
    {
      n := 0;
      for idx := 0 to FRAME_BITMAP_BITS
        invariant n == |FreeBelow(bitmap[..], idx)|
      {
        FreeBelowStep(bitmap[..], idx);
        if bitmap[idx / 8] & Mask(idx % 8) == 0 {
          n := n + 1;
        }
      }
    }

    /** Hands out the lowest free frame; fails only when no frame is free. */
    method Allocate() returns (r: Option<nat>)
      requires Valid()
      modifies this, bitmap
      ensures Valid()
      ensures old(Free()) == {} ==> r == None && Free() == {}
      ensures old(Free()) != {} ==> r == Some(Lowest(old(Free()))) && Free() == old(Free()) - {r.value}
    {
      ghost var was := bitmap[..];
      for i := 0 to BITMAP_BYTES
        invariant bitmap[..] == was && freeCount == old(freeCount)
        invariant forall k: nat | k < 8 * i :: !IsFree(was, k)
      {
        if bitmap[i] == 0xFF {
          FullByte(was, i);
          continue;
        }
        var bit := LowestClear(bitmap[i]);
        var frame := i * 8 + bit;
        FirstFree(was, i, frame);
        MarkUsed(frame);
        freeCount := freeCount - 1;
        return Some(frame);
      }
      assert FreeSet(was) == {};
      r := None;
    }

    method Deallocate(frame: nat)
      requires Valid()
      modifies this, bitmap
      ensures Valid()
      ensures Free() == FreeSpec(old(Free()), frame)
    {
      if frame >= FRAME_BITMAP_BITS || frame == 0 {
        return;
      }
      if IsFree(bitmap[..], frame) {
        return;
      }
      MarkFree(frame);
      freeCount := freeCount + 1;
    }
  }

  // ----- whole runs of the allocator -----

  datatype FrameOp = Alloc | Free(frame: nat)

  /** The free set, the frames handed out and not yet freed, and everything handed out so far, in order. */
  datatype Pool = Pool(free: set<nat>, out: set<nat>, handed: seq<nat>)

  ghost function PoolStep(p: Pool, op: FrameOp): Pool {
    match op
    case Alloc =>
      if p.free == {} then p
      else
        var f := Lowest(p.free);
        Pool(p.free - {f}, p.out + {f}, p.handed + [f])
    case Free(f) => Pool(FreeSpec(p.free, f), p.out - {f}, p.handed)
  }

  ghost function PoolRun(p: Pool, ops: seq<FrameOp>): Pool
    decreases |ops|
  {
    if ops == [] then p else PoolStep(PoolRun(p, ops[..|ops| - 1]), ops[|ops| - 1])
  }

  /** The bitmap, driven by any sequence of allocations and frees, hands out what the run says. */
  method PlayFrames(a: BitmapFrameAllocator, ops: seq<FrameOp>) returns (handed: seq<nat>)
    requires a.Valid()
    modifies a, a.bitmap
    ensures a.Valid()
    ensures var p := PoolRun(Pool(old(a.Free()), {}, []), ops);
            a.Free() == p.free && handed == p.handed && a.freeCount == |p.free|
  {
    handed := [];
    ghost var p0 := Pool(a.Free(), {}, []);
    for i := 0 to |ops|
      invariant a.Valid() && a.Free() == PoolRun(p0, ops[..i]).free && handed == PoolRun(p0, ops[..i]).handed
    {
      hide FreeSet, FreeSpec;
      assert ops[..i + 1][..i] == ops[..i];
      match ops[i] {
        case Alloc =>
          var r := a.Allocate();
          handed := if r.Some? then handed + [r.value] else handed;
        case Free(f) =>
          a.Deallocate(f);
      }
    }
    assert ops[..|ops|] == ops;
  }

  /** The caller discipline of `deallocate_frame`: only frames currently handed out are freed. */
  ghost predicate FreesOnlyOwn(p: Pool, ops: seq<FrameOp>) {
    forall k | 0 <= k < |ops| && ops[k].Free? :: ops[k].frame in PoolRun(p, ops[..k]).out
  }

  /** In every run, whatever is freed, a frame handed out was free at the start or was freed earlier in the run.
      Freeing page zero has no effect, so it is handed out only if it was free at the start. */
  lemma {:induction false} HandedOutWasFree(free0: set<nat>, ops: seq<FrameOp>, f: nat)
    requires f in PoolRun(Pool(free0, {}, []), ops).free || f in PoolRun(Pool(free0, {}, []), ops).handed
    ensures f in free0 || (f != 0 && Free(f) in ops)
    decreases |ops|
  {
    if ops != [] {
      var prev := ops[..|ops| - 1];
      var p := PoolRun(Pool(free0, {}, []), prev);
      if f in p.free || f in p.handed {
        HandedOutWasFree(free0, prev, f);
      }
      assert ops == prev + [ops[|ops| - 1]];
    }
  }

  /** After boot, in every run that frees only frames it was handed, page zero and the video window are never
      handed out, and no frame is handed out while it is already out. */
  lemma {:induction false} ReservedNeverHandedOut(regions: seq<MemoryRegion>, ops: seq<FrameOp>)
    requires FreesOnlyOwn(Pool(BootFree(regions), {}, []), ops)
    ensures var p := PoolRun(Pool(BootFree(regions), {}, []), ops);
            && (forall f | f in p.handed :: !Reserved(f))
            && p.free !! p.out && p.free + p.out == BootFree(regions)
    decreases |ops|
  {
    if ops != [] {
      var prev, op := ops[..|ops| - 1], ops[|ops| - 1];
      assert forall k | 0 <= k < |prev| :: prev[k] == ops[k] && prev[..k] == ops[..k];
      ReservedNeverHandedOut(regions, prev);
    }
  }

  /** Allocating and freeing the frame again restores the free set; freeing it twice is the same as once. */
  lemma AllocateFreeRestores(free: set<nat>)
    requires free != {} && 0 !in free && forall f | f in free :: f < FRAME_BITMAP_BITS
    ensures var f := Lowest(free);
            FreeSpec(free - {f}, f) == free && FreeSpec(FreeSpec(free - {f}, f), f) == free
  {
    assert Lowest(free) in free;
    assert free - {Lowest(free)} + {Lowest(free)} == free;
  }
}
