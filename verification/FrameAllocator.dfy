/** The bitmap frame allocator of src/frame_allocator.rs: one bit per 4 KiB frame in an
    array of 64-bit words, 1 for used, and a running count. Its meaning is the set of
    free frame indices; `held` records the frames handed out and not given back. */
module Frames {
  import opened Common
  import opened Bits
  import opened LittleEndian

  const FRAME_SIZE := 4096
  const MAX_ADDRESS := 0x1_0000_0000
  const FRAME_COUNT := 0x10_0000
  const BITMAP_WORDS := 0x4000

  type u64 = n: int | 0 <= n < U64

  datatype MemoryRegion = MemoryRegion(base: u64, length: u64, kind: nat) {
    /** One past the last byte, saturating. */
    function End(): u64 { if base + length < U64 then base + length else U64 - 1 }

    predicate Usable() { kind == 1 }
  }

  /** Frame i shares at least one byte with [start, end). */
  predicate Meets(i: nat, start: int, end: int) {
    Max(start, i * FRAME_SIZE) < Min(end, (i + 1) * FRAME_SIZE)
  }

  /** Frame i lies wholly inside the region, below 4 GiB. */
  predicate Inside(i: nat, r: MemoryRegion) {
    r.Usable() && r.base <= i * FRAME_SIZE && (i + 1) * FRAME_SIZE <= Min(r.base + r.length, MAX_ADDRESS)
  }

  ghost predicate InsideSome(i: nat, regions: seq<MemoryRegion>) {
    exists k | 0 <= k < |regions| :: Inside(i, regions[k])
  }

  /** `end + FRAME_SIZE - 1` does not wrap around 2^64. */
  predicate RoundsUp(end: u64) { end + FRAME_SIZE - 1 < U64 }

  lemma MeetsRange(i: nat, start: u64, end: u64)
    requires start < end
    ensures Meets(i, start, end) <==> start / FRAME_SIZE <= i < (end + FRAME_SIZE - 1) / FRAME_SIZE
  {
  }

  lemma InsideRange(i: nat, r: MemoryRegion)
    requires r.Usable() && r.base < MAX_ADDRESS
    ensures Inside(i, r) <==> (r.base + FRAME_SIZE - 1) / FRAME_SIZE <= i < Min(r.End(), MAX_ADDRESS) / FRAME_SIZE
  {
  }

  /** A frame is inside a usable region iff all its bytes are, and below 4 GiB. */
  lemma InsideMeans(i: nat, r: MemoryRegion)
    ensures Inside(i, r) <==>
      r.kind == 1 && forall x: nat | x / 4096 == i :: r.base <= x < r.base + r.length && x < 0x1_0000_0000
  {
    if r.kind == 1 && forall x: nat | x / 4096 == i :: r.base <= x < r.base + r.length && x < 0x1_0000_0000 {
      assert (4096 * i) / 4096 == i && (4096 * i + 4095) / 4096 == i;
    }
  }

  /** It meets a range iff it has a byte in it. */
  lemma MeetsMeans(i: nat, start: nat, end: nat)
    ensures Meets(i, start, end) <==> exists x: nat :: x / 4096 == i && start <= x < end
  {
    if Meets(i, start, end) {
      var x := Max(start, 4096 * i);
      assert x / 4096 == i;
    }
  }

  lemma CountRemoved(s: set<int>, i: int)
    ensures |s - {i}| == if i in s then |s| - 1 else |s|
  {
    if i !in s { assert s - {i} == s; }
  }

  lemma CountAdded(s: set<int>, i: int)
    ensures |s + {i}| == if i in s then |s| else |s| + 1
  {
    if i in s { assert s + {i} == s; }
  }

  /** The frames of s outside [first, last). */
  ghost function Beside(s: set<int>, first: int, last: int): set<int> { set i | i in s && !(first <= i < last) }

  lemma BesideIs(s: set<int>, first: int, last: int)
    ensures Beside(s, first, last) == set i | i in s && !(first <= i < last)
  {
  }

  lemma NothingBeside(s: set<int>, first: int, last: int)
    requires last <= first
    ensures Beside(s, first, last) == s
  {
  }

  lemma BesideStep(s: set<int>, first: int, i: int)
    requires first <= i
    ensures Beside(s, first, i + 1) == Beside(s, first, i) - {i}
  {
  }

  class FrameAllocator {
    const bitmap: array<bv64>
    var freeFrames: int
    ghost var held: set<int>

    predicate IsUsed(i: int)
      requires bitmap.Length == BITMAP_WORDS && 0 <= i < FRAME_COUNT
      reads bitmap
    {
      Bit(bitmap[i / 64], i % 64)
    }

    ghost function Free(): (s: set<int>)
      requires bitmap.Length == BITMAP_WORDS
      reads bitmap
    {
      set i | 0 <= i < FRAME_COUNT && !IsUsed(i)
    }

    ghost predicate Valid()
      reads this, bitmap
    {
      && bitmap.Length == BITMAP_WORDS
      && freeFrames == |Free()|
      && held !! Free()
    }

    constructor ()
      ensures fresh(bitmap) && bitmap.Length == BITMAP_WORDS && freeFrames == 0 && held == {}
      ensures forall i | 0 <= i < FRAME_COUNT :: !IsUsed(i)
    {
      bitmap := new bv64[BITMAP_WORDS](_ => 0);
      freeFrames := 0;
      held := {};
    }

    method SetUsed(i: int)
      requires bitmap.Length == BITMAP_WORDS && 0 <= i < FRAME_COUNT
      modifies bitmap
      ensures Free() == old(Free()) - {i}
    {
      hide Bit, WithBit, WithoutBit;
      bitmap[i / 64] := WithBit(bitmap[i / 64], i % 64);
      forall j | 0 <= j < FRAME_COUNT ensures IsUsed(j) == (j == i || old(IsUsed(j))) {
        OneBit(old(bitmap[i / 64]), i % 64, j % 64);
      }
    }

    method SetFree(i: int)
      requires bitmap.Length == BITMAP_WORDS && 0 <= i < FRAME_COUNT
      modifies bitmap
      ensures Free() == old(Free()) + {i}
    {
      hide Bit, WithBit, WithoutBit;
      bitmap[i / 64] := WithoutBit(bitmap[i / 64], i % 64);
      forall j | 0 <= j < FRAME_COUNT ensures IsUsed(j) == (j != i && old(IsUsed(j))) {
        OneBit(old(bitmap[i / 64]), i % 64, j % 64);
      }
    }

    lemma UsedMeans(i: int)
      requires bitmap.Length == BITMAP_WORDS && 0 <= i < FRAME_COUNT
      ensures IsUsed(i) <==> i !in Free()
    {
      hide IsUsed;
    }

    method MarkUsed(first: nat, last: nat)
      requires bitmap.Length == BITMAP_WORDS && freeFrames == |Free()| && last <= FRAME_COUNT
      modifies this`freeFrames, bitmap
      ensures freeFrames == |Free()|
      ensures Free() == set i | i in old(Free()) && !(first <= i < last)
    {
      hide IsUsed, Free, Beside;
      if last <= first {
        NothingBeside(Free(), first, last);
        BesideIs(Free(), first, last);
        return;
      }
      NothingBeside(Free(), first, first);
      for index := first to last
        invariant freeFrames == |Free()|
        invariant Free() == Beside(old(Free()), first, index)
      {
        CountRemoved(Free(), index);
        UsedMeans(index);
        BesideStep(old(Free()), first, index);
        var used := IsUsed(index);
        SetUsed(index);
        if !used { freeFrames := freeFrames - 1; }
      }
      BesideIs(old(Free()), first, last);
    }

    /** Marks used every frame that meets [start, end), unless rounding `end` up wraps
        around 2^64: then it marks none at all. */
    method Reserve(start: u64, end: u64)
      requires bitmap.Length == BITMAP_WORDS && freeFrames == |Free()|
      modifies this`freeFrames, bitmap
      ensures freeFrames == |Free()|
      ensures Free() == if RoundsUp(end) then set i | i in old(Free()) && !Meets(i, start, end) else old(Free())
    {
      hide IsUsed;
      if end <= start {
        assert forall i | i in Free() :: !Meets(i, start, end);
        return;
      }
      var last := (end + FRAME_SIZE - 1) % U64 / FRAME_SIZE;
      MarkUsed(start / FRAME_SIZE, Min(last, FRAME_COUNT));
      if RoundsUp(end) {
        forall i | i in old(Free()) ensures Meets(i, start, end) <==> start / FRAME_SIZE <= i < Min(last, FRAME_COUNT) {
          MeetsRange(i, start, end);
        }
      } else {
        assert last == 0;
        assert Free() == old(Free());
      }
    }

    method MarkFree(first: nat, last: nat)
      requires bitmap.Length == BITMAP_WORDS && freeFrames == |Free()| && first <= last <= FRAME_COUNT
      modifies this`freeFrames, bitmap
      ensures freeFrames == |Free()|
      ensures Free() == set i | 0 <= i < FRAME_COUNT && (i in old(Free()) || first <= i < last)
    {
      hide Bit;
      for index := first to last
        invariant freeFrames == |Free()|
        invariant Free() == set i | 0 <= i < FRAME_COUNT && (i in old(Free()) || first <= i < index)
      {
        CountAdded(Free(), index);
        if IsUsed(index) {
          freeFrames := freeFrames + 1;
          SetFree(index);
        }
      }
    }

    /** Frees the frames wholly inside one usable region. */
    method FreeRegion(r: MemoryRegion)
      requires bitmap.Length == BITMAP_WORDS && freeFrames == |Free()|
      modifies this`freeFrames, bitmap
      ensures freeFrames == |Free()|
      ensures Free() == set i | 0 <= i < FRAME_COUNT && (i in old(Free()) || Inside(i, r))
    {
      hide IsUsed;
      assert forall i | i in Free() :: 0 <= i < FRAME_COUNT by { InRange(); }
      if !r.Usable() || r.base >= MAX_ADDRESS {
        assert forall i: nat | 0 <= i < FRAME_COUNT :: !Inside(i, r);
        return;
      }
      var first := (r.base + FRAME_SIZE - 1) / FRAME_SIZE;
      var last := Min(r.End(), MAX_ADDRESS) / FRAME_SIZE;
      forall i: nat | 0 <= i < FRAME_COUNT ensures Inside(i, r) <==> first <= i < last {
        InsideRange(i, r);
      }
      if last <= first { return; }
      MarkFree(first, last);
    }

    lemma InRange()
      requires bitmap.Length == BITMAP_WORDS
      ensures forall i | i in Free() :: 0 <= i < FRAME_COUNT
    {
    }

    /** `init`; false is its panic on a map without a single usable frame. */
    method Init(regions: seq<MemoryRegion>, kernelStart: u64, kernelEnd: u64, infoStart: u64, infoEnd: u64)
      returns (ok: bool)
      requires bitmap.Length == BITMAP_WORDS
      modifies this, bitmap
      ensures ok <==> exists i | 0 <= i < FRAME_COUNT :: InsideSome(i, regions)
      ensures ok ==> Valid() && held == {}
      ensures ok ==> forall i | 0 <= i < FRAME_COUNT :: i in Free() <==>
        && InsideSome(i, regions)
        && i != 0
        && (RoundsUp(kernelEnd) ==> !Meets(i, kernelStart, kernelEnd))
        && (RoundsUp(infoEnd) ==> !Meets(i, infoStart, infoEnd))
    {
      freeFrames := 0;
      held := {};
      FillUsed();
      for k := 0 to |regions|
        invariant freeFrames == |Free()| && held == {}
        invariant Free() == set i | 0 <= i < FRAME_COUNT && InsideSome(i, regions[..k])
      {
        hide Bit, WithBit, WithoutBit;
        FreeRegion(regions[k]);
        assert regions[..k + 1] == regions[..k] + [regions[k]];
        forall i | 0 <= i < FRAME_COUNT
          ensures InsideSome(i, regions[..k + 1]) <==> InsideSome(i, regions[..k]) || Inside(i, regions[k])
        {
          InsideSomeSnoc(i, regions[..k], regions[k]);
        }
      }
      hide Bit, WithBit, WithoutBit;
      assert regions[..|regions|] == regions;
      ghost var usable := Free();
      ok := freeFrames > 0;
      if !ok {
        assert usable == {};
        assert forall i | 0 <= i < FRAME_COUNT :: InsideSome(i, regions) ==> i in usable;
        return;
      }
      assert exists i :: i in usable;
      Reserve(0, FRAME_SIZE);
      Reserve(kernelStart, kernelEnd);
      Reserve(infoStart, infoEnd);
    }

    method FillUsed()
      requires bitmap.Length == BITMAP_WORDS
      modifies bitmap
      ensures Free() == {}
    {
      for w := 0 to BITMAP_WORDS
        invariant forall v | 0 <= v < w :: bitmap[v] == ALL_ONES
      {
        bitmap[w] := ALL_ONES;
      }
      hide Bit, WithBit, WithoutBit;
      forall i | 0 <= i < FRAME_COUNT ensures IsUsed(i) {
        AllOnesBit(i % 64);
      }
    }

    /** The lowest free frame, or none if there is none; never one already held. */
    method Alloc() returns (r: Option<int>)
      requires Valid()
      modifies this`freeFrames, this`held, bitmap
      ensures Valid()
      ensures r.None? <==> old(Free()) == {}
      ensures r.None? ==> Free() == old(Free()) && held == old(held)
      ensures r.Some? ==>
        && r.value in old(Free()) && r.value !in old(held)
        && (forall j | j in old(Free()) :: r.value <= j)
        && Free() == old(Free()) - {r.value}
        && held == old(held) + {r.value}
    {
      hide Bit, WithBit, WithoutBit;
      for w := 0 to BITMAP_WORDS
        invariant freeFrames == old(freeFrames) && held == old(held)
        invariant forall j | 0 <= j < w * 64 :: IsUsed(j)
      {
        var word := bitmap[w];
        if word != ALL_ONES {
          var bit := TrailingOnes(word);
          var index := w * 64 + bit;
          assert forall j | w * 64 <= j < index :: IsUsed(j);
          assert index in Free();
          CountRemoved(Free(), index);
          SetUsed(index);
          freeFrames := freeFrames - 1;
          held := held + {index};
          return Some(index);
        }
        forall j | w * 64 <= j < (w + 1) * 64 ensures IsUsed(j) {
          AllOnesBit(j % 64);
        }
      }
      r := None;
    }

    /** Out-of-range and already free frames are left alone. */
    method Release(index: nat)
      requires Valid()
      modifies this`freeFrames, this`held, bitmap
      ensures Valid()
      ensures Free() == if index < FRAME_COUNT then old(Free()) + {index} else old(Free())
      ensures held == old(held) - {index}
    {
      hide Bit, WithBit, WithoutBit;
      held := held - {index};
      if index >= FRAME_COUNT { return; }
      if !IsUsed(index) {
        assert Free() + {index} == Free();
        return;
      }
      CountAdded(Free(), index);
      SetFree(index);
      freeFrames := freeFrames + 1;
    }
  }

  lemma InsideSomeSnoc(i: nat, regions: seq<MemoryRegion>, r: MemoryRegion)
    ensures InsideSome(i, regions + [r]) <==> InsideSome(i, regions) || Inside(i, r)
  {
    var all := regions + [r];
    if InsideSome(i, regions) {
      var k :| 0 <= k < |regions| && Inside(i, regions[k]);
      assert all[k] == regions[k];
    }
    if Inside(i, r) { assert all[|regions|] == r; }
  }
}
