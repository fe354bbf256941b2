/** The intrusive free-list allocator of src/heap.rs. The list nodes are words of the
    heap's own memory, inside the free regions; every store the allocator makes goes
    through `Store`, whose precondition is that the word lies in no live block. */
module Heap {
  import opened Common
  import opened HeapLayout

  /** An allocation handed out and not yet returned. */
  datatype Block = Block(ptr: nat, layout: Layout)

  /** The bytes set aside for it: the rounded size. */
  ghost function Extent(b: Block): Region {
    Region(b.ptr, if b.layout.Good() && SizeAlign(b.layout).Some? then SizeAlign(b.layout).value.0 else 0)
  }

  ghost function Extents(live: seq<Block>): (e: seq<Region>)
    ensures |e| == |live|
    ensures forall i | 0 <= i < |live| :: e[i] == Extent(live[i])
  {
    seq(|live|, i requires 0 <= i < |live| => Extent(live[i]))
  }

  /** A pointer that `alloc` may return for the layout. */
  ghost predicate FitsLayout(b: Block) {
    b.layout.Good() && SizeAlign(b.layout).Some? && Multiple(b.ptr, SizeAlign(b.layout).value.1)
  }

  datatype AllocResult = Ptr(addr: nat) | Null | Panic

  /** A region that can carry a node and lies in [base, end). */
  predicate Sound(r: Region, base: nat, end: nat) {
    base <= r.start && r.End() <= end && r.start % 8 == 0 && r.size % 8 == 0 && r.size >= NODE_SIZE
  }

  ghost predicate PairwiseApart(s: seq<Region>) {
    forall i, j | 0 <= i < j < |s| :: Apart(s[i], s[j])
  }

  ghost predicate AllApart(s: seq<Region>, t: seq<Region>) {
    forall i, j | 0 <= i < |s| && 0 <= j < |t| :: Apart(s[i], t[j])
  }

  ghost predicate AllSound(s: seq<Region>, base: nat, end: nat) {
    forall i | 0 <= i < |s| :: Sound(s[i], base, end)
  }

  /** The node address at position i of the list, 0 past its end. */
  ghost function NodeAt(regions: seq<Region>, i: nat): nat {
    if i < |regions| then regions[i].start else 0
  }

  /** The list threaded through memory from `head` is exactly `regions`. */
  ghost predicate Threaded(mem: map<nat, nat>, head: nat, regions: seq<Region>) {
    && head == NodeAt(regions, 0)
    && forall i | 0 <= i < |regions| ::
         && regions[i].start in mem && mem[regions[i].start] == regions[i].size
         && regions[i].start + 8 in mem && mem[regions[i].start + 8] == NodeAt(regions, i + 1)
  }

  lemma WithoutKeeps(s: seq<Region>, k: nat, t: seq<Region>, base: nat, end: nat)
    requires k < |s| && PairwiseApart(s) && AllSound(s, base, end) && AllApart(s, t)
    ensures PairwiseApart(Without(s, k)) && AllSound(Without(s, k), base, end) && AllApart(Without(s, k), t)
    ensures AllApart([s[k]], Without(s, k)) && AllApart([s[k]], t)
  {
  }

  lemma ApartFlips(s: seq<Region>, t: seq<Region>)
    requires AllApart(s, t)
    ensures AllApart(t, s)
  {
  }

  lemma PushKeeps(r: Region, s: seq<Region>, t: seq<Region>, base: nat, end: nat)
    requires PairwiseApart(s) && AllSound(s, base, end) && AllApart(s, t)
    requires Sound(r, base, end) && AllApart([r], s) && AllApart([r], t)
    ensures PairwiseApart([r] + s) && AllSound([r] + s, base, end) && AllApart([r] + s, t)
  {
    assert [r][0] == r;
  }

  lemma AppendKeeps(s: seq<Region>, r: Region, t: seq<Region>, base: nat, end: nat)
    requires PairwiseApart(s) && AllSound(s, base, end) && AllApart(t, s)
    requires Sound(r, base, end) && AllApart([r], s) && AllApart([r], t)
    ensures PairwiseApart(s + [r]) && AllSound(s + [r], base, end) && AllApart(t, s + [r])
  {
    assert [r][0] == r;
  }

  /** A new node in front of the list. */
  lemma PushThreaded(mem: map<nat, nat>, head: nat, regions: seq<Region>, r: Region, base: nat, end: nat)
    requires Threaded(mem, head, regions) && AllSound(regions, base, end) && Sound(r, base, end) && AllApart([r], regions)
    ensures Threaded(mem[r.start := r.size][r.start + 8 := head], r.start, [r] + regions)
  {
    var mem', all := mem[r.start := r.size][r.start + 8 := head], [r] + regions;
    assert [r][0] == r;
    forall i | 0 <= i < |all|
      ensures all[i].start in mem' && mem'[all[i].start] == all[i].size
      ensures all[i].start + 8 in mem' && mem'[all[i].start + 8] == NodeAt(all, i + 1)
    {
      if i > 0 {
        assert all[i] == regions[i - 1] && Apart(r, regions[i - 1]);
        assert NodeAt(all, i + 1) == NodeAt(regions, i);
      }
    }
  }

  ghost function Unlinked(mem: map<nat, nat>, regions: seq<Region>, k: nat): map<nat, nat>
    requires k < |regions|
  {
    var cleared := mem[regions[k].start + 8 := 0];
    if k == 0 then cleared else cleared[regions[k - 1].start + 8 := NodeAt(regions, k + 1)]
  }

  lemma UnlinkedWords(mem: map<nat, nat>, head: nat, regions: seq<Region>, k: nat, j: nat, base: nat, end: nat)
    requires Threaded(mem, head, regions) && AllSound(regions, base, end) && PairwiseApart(regions)
    requires k < |regions| && j < |regions| && j != k
    ensures var mem' := Unlinked(mem, regions, k);
      && regions[j].start in mem' && mem'[regions[j].start] == regions[j].size
      && regions[j].start + 8 in mem'
      && mem'[regions[j].start + 8] == NodeAt(regions, if j == k - 1 then k + 1 else j + 1)
  {
    hide NodeAt;
    NodesFar(regions, j, k, base, end);
    if k > 0 && j != k - 1 { NodesFar(regions, j, k - 1, base, end); }
  }

  /** The node at position k unlinked: its own link cleared, its predecessor's (or the
      head) moved on. */
  lemma UnlinkThreaded(mem: map<nat, nat>, head: nat, regions: seq<Region>, k: nat, base: nat, end: nat)
    requires Threaded(mem, head, regions) && AllSound(regions, base, end) && PairwiseApart(regions) && k < |regions|
    ensures Threaded(Unlinked(mem, regions, k), if k == 0 then NodeAt(regions, 1) else head, Without(regions, k))
  {
    hide Unlinked, NodeAt, AllSound, PairwiseApart;
    var mem' := Unlinked(mem, regions, k);
    var rest := Without(regions, k);
    forall i | 0 <= i < |rest|
      ensures rest[i].start in mem' && mem'[rest[i].start] == rest[i].size
      ensures rest[i].start + 8 in mem' && mem'[rest[i].start + 8] == NodeAt(rest, i + 1)
    {
      var j := if i < k then i else i + 1;
      UnlinkedWords(mem, head, regions, k, j, base, end);
      NodeAtWithout(regions, k, i + 1);
      assert rest[i] == regions[j];
    }
    NodeAtWithout(regions, k, 0);
  }

  lemma NodeAtWithout(regions: seq<Region>, k: nat, i: nat)
    requires k < |regions|
    ensures NodeAt(Without(regions, k), i) == NodeAt(regions, if i < k then i else i + 1)
  {
  }

  lemma NodesFar(regions: seq<Region>, i: nat, j: nat, base: nat, end: nat)
    requires AllSound(regions, base, end) && PairwiseApart(regions) && i < |regions| && j < |regions| && i != j
    ensures regions[i].start + NODE_SIZE <= regions[j].start || regions[j].start + NODE_SIZE <= regions[i].start
  {
    hide NodeAt;
    if i < j {
      assert Apart(regions[i], regions[j]);
    } else {
      assert Apart(regions[j], regions[i]);
    }
  }

  lemma {:induction false} FirstFitIs(regions: seq<Region>, bytes: nat, align: nat, k: nat)
    requires align > 0 && k <= |regions|
    requires forall j | 0 <= j < k :: AllocFrom(regions[j], bytes, align).None?
    requires k < |regions| ==> AllocFrom(regions[k], bytes, align).Some?
    ensures FirstFit(regions, bytes, align) == k
  {
    hide AllocFrom;
    var f := FirstFit(regions, bytes, align);
  }

  lemma AllocFromFacts(r: Region, bytes: nat, align: nat)
    requires align > 0 && align % 8 == 0 && bytes % 8 == 0 && r.start % 8 == 0 && r.size % 8 == 0
    requires AllocFrom(r, bytes, align).Some?
    ensures var start := AllocFrom(r, bytes, align).value;
      && r.start <= start && start + bytes <= r.End() && Multiple(start, align) && start % 8 == 0
      && (var excess := r.End() - (start + bytes); excess % 8 == 0 && (excess == 0 || excess >= NODE_SIZE))
      && (align == 8 ==> start == r.start)
  {
    hide AlignUp, Multiple;
    AlignedStart(r.start, align);
    var start := AlignUp(r.start, align);
    EighthsSubtract(r.start, r.size, start, bytes);
  }

  lemma AlignedStart(addr: nat, align: nat)
    requires align > 0 && align % 8 == 0 && addr % 8 == 0
    ensures var start := AlignUp(addr, align);
      addr <= start && Multiple(start, align) && start % 8 == 0 && (align == 8 ==> start == addr)
  {
    hide AlignUp;
    AlignUpFacts(addr, align);
    MultipleOf8(AlignUp(addr, align), align);
  }

  lemma EighthsSubtract(start: nat, size: nat, cut: nat, bytes: nat)
    requires start % 8 == 0 && size % 8 == 0 && cut % 8 == 0 && bytes % 8 == 0
    ensures (start + size - (cut + bytes)) % 8 == 0
  {
  }

  lemma InsideApart(whole: Region, part: Region, others: seq<Region>)
    requires AllApart([whole], others) && whole.start <= part.start && part.End() <= whole.End() && part.size > 0
    ensures AllApart([part], others)
  {
    forall j | 0 <= j < |others| ensures Apart(part, others[j]) {
      assert Apart([whole][0], others[j]);
    }
  }

  lemma CarveFacts(whole: Region, bytes: nat, align: nat, regions: seq<Region>, taken: seq<Region>, base: nat, end: nat)
    requires align > 0 && align % 8 == 0 && bytes % 8 == 0 && bytes >= NODE_SIZE
    requires AllocFrom(whole, bytes, align).Some? && Sound(whole, base, end)
    requires AllApart([whole], regions) && AllApart([whole], taken)
    ensures var start := AllocFrom(whole, bytes, align).value;
      var block := Region(start, bytes);
      && whole.start <= start && Multiple(start, align) && (align == 8 ==> start == whole.start)
      && block.End() <= whole.End()
      && Sound(block, base, end) && AllApart([block], regions) && AllApart([block], taken)
      && (block.End() < whole.End() ==>
            var tail := Region(block.End(), whole.End() - block.End());
            Sound(tail, base, end) && AllApart([tail], regions) && AllApart([tail], taken) && Apart(block, tail))
  {
    hide AllocFrom, AllApart, Sound, Multiple;
    CarveSound(whole, bytes, align, base, end);
    var start := AllocFrom(whole, bytes, align).value;
    var block := Region(start, bytes);
    InsideApart(whole, block, regions);
    InsideApart(whole, block, taken);
    if block.End() < whole.End() {
      var tail := Region(block.End(), whole.End() - block.End());
      InsideApart(whole, tail, regions);
      InsideApart(whole, tail, taken);
    }
  }

  lemma CarveSound(whole: Region, bytes: nat, align: nat, base: nat, end: nat)
    requires align > 0 && align % 8 == 0 && bytes % 8 == 0 && bytes >= NODE_SIZE
    requires AllocFrom(whole, bytes, align).Some? && Sound(whole, base, end)
    ensures var start := AllocFrom(whole, bytes, align).value;
      var block := Region(start, bytes);
      && whole.start <= start && Multiple(start, align) && (align == 8 ==> start == whole.start)
      && block.End() <= whole.End() && Sound(block, base, end)
      && (block.End() < whole.End() ==>
            var tail := Region(block.End(), whole.End() - block.End());
            Sound(tail, base, end) && Apart(block, tail))
  {
    hide AllocFrom, Multiple;
    AllocFromFacts(whole, bytes, align);
  }

  lemma PushApart(block: Region, tail: Region, s: seq<Region>)
    requires AllApart([block], s) && Apart(block, tail)
    ensures AllApart([block], [tail] + s)
  {
    assert [block][0] == block;
  }

  lemma TotalPush(r: Region, s: seq<Region>)
    ensures Total([r] + s) == r.size + Total(s)
  {
    assert ([r] + s)[1..] == s;
  }

  lemma SoundAt(s: seq<Region>, k: nat, base: nat, end: nat)
    requires AllSound(s, base, end) && k < |s|
    ensures Sound(s[k], base, end)
  {
  }

  /** An aligned region of exactly the size asked for, first in the list, is the fit. */
  lemma ExactFit(r: Region, align: nat, rest: seq<Region>)
    requires align > 0 && r.start % align == 0 && r.End() <= ISIZE_MAX
    ensures FirstFit([r] + rest, r.size, align) == 0 && AllocFrom(r, r.size, align) == Some(r.start)
  {
    AlignUpFacts(r.start, align);
  }

  /** What a region has left from `from` on, if anything. */
  function Tail(whole: Region, from: nat): seq<Region> {
    if from < whole.End() then [Region(from, whole.End() - from)] else []
  }

  lemma ExtentStarts(b: Block)
    ensures Extent(b).start == b.ptr
  {
  }

  lemma CutIs(regions: seq<Region>, k: nat, from: nat)
    requires k < |regions|
    ensures Cut(regions, k, from) == Tail(regions[k], from) + Without(regions, k)
  {
  }

  /** The terms of `alloc`, in figures. */
  lemma AllocTerms(layout: Layout, regions: seq<Region>)
    requires layout.Good()
    ensures SizeAlign(layout).None? <==>
      layout.size + (if layout.align < 8 then 8 else layout.align) - 1 > 0x7FFF_FFFF_FFFF_FFFF
    ensures SizeAlign(layout).Some? ==>
      var (bytes, align) := SizeAlign(layout).value;
      && align > 0 && Rounded(layout, bytes, align)
      && var k := FirstFit(regions, bytes, align);
      && (k == |regions| <==> FitsNowhere(regions, bytes, align))
      && (k < |regions| ==>
            var start := AllocFrom(regions[k], bytes, align).value;
            Granted(regions, bytes, align, start, Tail(regions[k], start + bytes) + Without(regions, k)))
  {
    hide SizeAlign, AllocFrom, FirstFit, Rounded, FitsAt, FirstAt, FitsNowhere, PowerOfTwo, Cut, Tail,
         Without;
    SizeAlignExactly(layout, 0, 0);
    if SizeAlign(layout).Some? {
      var (bytes, align) := SizeAlign(layout).value;
      SizeAlignExactly(layout, bytes, align);
      SizeAlignFacts(layout);
      FirstFitExactly(regions, bytes, align);
      var k := FirstFit(regions, bytes, align);
      if k < |regions| { CutIs(regions, k, AllocFrom(regions[k], bytes, align).value + bytes); }
    }
  }

  class FreeListHeap {
    const base: nat
    const size: nat
    /** Address of the first node, 0 for none. */
    var head: nat
    /** The heap's words, by address. */
    var mem: map<nat, nat>
    ghost var regions: seq<Region>
    ghost var live: seq<Block>
    /** Bytes skipped in front of over-aligned allocations. */
    ghost var gaps: nat

    ghost predicate Placed()
      reads this
    {
      && 0 < base && base % 8 == 0 && size % 8 == 0 && base + size <= ISIZE_MAX
      && (forall a | base <= a < base + size && a % 8 == 0 :: a in mem)
      && (forall i | 0 <= i < |live| :: FitsLayout(live[i]))
      && AllSound(regions, base, base + size) && AllSound(Extents(live), base, base + size)
      && PairwiseApart(regions) && PairwiseApart(Extents(live)) && AllApart(regions, Extents(live))
    }

    ghost predicate Valid()
      reads this
    {
      && Placed()
      && Threaded(mem, head, regions)
      && Total(regions) + Total(Extents(live)) + gaps == size
    }

    /** No live block has a byte in the word at `a`. */
    ghost predicate Unowned(a: nat)
      reads this`live
    {
      forall i | 0 <= i < |live| :: a + 8 <= live[i].ptr || Extent(live[i]).End() <= a
    }

    /** A word of the heap written, outside every live block. */
    method Store(a: nat, w: nat)
      requires base <= a && a + 8 <= base + size && a % 8 == 0 && Unowned(a)
      modifies this`mem
      ensures mem == old(mem)[a := w]
    {
      mem := mem[a := w];
    }

    /** Push [addr, addr + size) onto the list, its node in the region's own first bytes. */
    method AddFreeRegion(addr: nat, bytes: nat)
      requires Placed() && Threaded(mem, head, regions)
      requires Sound(Region(addr, bytes), base, base + size)
      requires AllApart([Region(addr, bytes)], regions) && AllApart([Region(addr, bytes)], Extents(live))
      modifies this`mem, this`head, this`regions
      ensures Placed() && Threaded(mem, head, regions)
      ensures regions == [Region(addr, bytes)] + old(regions)
      ensures forall a | a in old(mem) && !Unowned(a) :: a in mem && mem[a] == old(mem)[a]
    {
      hide PairwiseApart, AllApart, NodeAt, Unowned, Threaded, AllSound;
      ghost var r := Region(addr, bytes);
      PushThreaded(mem, head, regions, r, base, base + size);
      PushKeeps(r, regions, Extents(live), base, base + size);
      RegionUnowned(r);
      Store(addr, bytes);
      Store(addr + 8, head);
      head := addr;
      regions := [r] + regions;
    }

    /** The node words of a region apart from the live blocks belong to none of them. */
    lemma RegionUnowned(r: Region)
      requires r.size >= NODE_SIZE && AllApart([r], Extents(live))
      ensures Unowned(r.start) && Unowned(r.start + 8)
    {
      forall i | 0 <= i < |live|
        ensures r.start + 16 <= live[i].ptr || Extent(live[i]).End() <= r.start
      {
        assert Apart([r][0], Extents(live)[i]);
      }
    }

    /** The `next` field of the list's head (0) or of the node at `current`. */
    function NextOf(current: nat): nat
      requires current == 0 || current + 8 in mem
      reads this
    {
      if current == 0 then head else mem[current + 8]
    }

    /** First fit: find and unlink the first region that can satisfy the request. */
    method FindRegion(bytes: nat, align: nat) returns (r: Option<(nat, nat)>)
      requires Placed() && Threaded(mem, head, regions) && align > 0
      modifies this`mem, this`head, this`regions
      ensures Placed() && Threaded(mem, head, regions)
      ensures var k := FirstFit(old(regions), bytes, align);
        if k == |old(regions)| then r.None? && regions == old(regions) && head == old(head) && mem == old(mem)
        else
          && r == Some((old(regions)[k].start, AllocFrom(old(regions)[k], bytes, align).value))
          && regions == Without(old(regions), k)
          && r.value.0 in mem && mem[r.value.0] == old(regions)[k].size
      ensures forall a | a in old(mem) && !Unowned(a) :: a in mem && mem[a] == old(mem)[a]
    {
      hide AllocFrom, FirstFit, PairwiseApart, AllApart;
      var current := 0;
      ghost var k := 0;
      while NextOf(current) != 0
        invariant Placed() && Threaded(mem, head, regions)
        invariant mem == old(mem) && head == old(head) && regions == old(regions)
        invariant 0 <= k <= |regions| && current == (if k == 0 then 0 else regions[k - 1].start)
        invariant forall j | 0 <= j < k :: AllocFrom(regions[j], bytes, align).None?
        decreases |regions| - k
      {
        var region := NextOf(current);
        assert region == regions[k].start;
        var start := AllocFrom(Region(region, mem[region]), bytes, align);
        if start.Some? {
          FirstFitIs(regions, bytes, align, k);
          Unlink(current, region, k);
          return Some((region, start.value));
        }
        current := region;
        k := k + 1;
      }
      FirstFitIs(regions, bytes, align, |regions|);
      r := None;
    }

    /** What unlinking needs to know before it writes. */
    lemma UnlinkReady(k: nat)
      requires Placed() && Threaded(mem, head, regions) && k < |regions|
      ensures Unowned(regions[k].start + 8) && Sound(regions[k], base, base + size)
      ensures regions[k].start in mem && mem[regions[k].start] == regions[k].size
      ensures regions[k].start + 8 in mem && mem[regions[k].start + 8] == NodeAt(regions, k + 1)
      ensures k > 0 ==>
        && Unowned(regions[k - 1].start + 8) && Sound(regions[k - 1], base, base + size)
        && regions[k].start != regions[k - 1].start + 8
      ensures Threaded(Unlinked(mem, regions, k), if k == 0 then NodeAt(regions, 1) else head, Without(regions, k))
      ensures PairwiseApart(Without(regions, k)) && AllSound(Without(regions, k), base, base + size)
      ensures AllApart(Without(regions, k), Extents(live))
    {
      hide PairwiseApart, AllApart, NodeAt, Unowned, Unlinked;
      UnlinkThreaded(mem, head, regions, k, base, base + size);
      WithoutKeeps(regions, k, Extents(live), base, base + size);
      RegionUnowned(regions[k]);
      if k > 0 {
        NodesFar(regions, k, k - 1, base, base + size);
        WithoutKeeps(regions, k - 1, Extents(live), base, base + size);
        RegionUnowned(regions[k - 1]);
      }
    }

    /** Take the region after `current` out of the list. */
    method Unlink(current: nat, region: nat, ghost k: nat)
      requires Placed() && Threaded(mem, head, regions) && k < |regions|
      requires region == regions[k].start && current == (if k == 0 then 0 else regions[k - 1].start)
      modifies this`mem, this`head, this`regions
      ensures Placed() && Threaded(mem, head, regions)
      ensures regions == Without(old(regions), k)
      ensures region in mem && mem[region] == old(regions)[k].size
      ensures forall a | a in old(mem) && !Unowned(a) :: a in mem && mem[a] == old(mem)[a]
    {
      hide PairwiseApart, AllApart, NodeAt, Unowned, Threaded, AllSound;
      UnlinkReady(k);
      var next := mem[region + 8];
      Store(region + 8, 0);
      if current == 0 {
        head := next;
      } else {
        Store(current + 8, next);
      }
      assert mem == Unlinked(old(mem), regions, k);
      regions := Without(regions, k);
    }

    /** The bytes at `start` become a live block, `gap` bytes before them are given up. */
    ghost method TakeBlock(start: nat, layout: Layout, gap: nat)
      requires Placed() && FitsLayout(Block(start, layout))
      requires var extent := Extent(Block(start, layout));
        Sound(extent, base, base + size) && AllApart([extent], regions) && AllApart([extent], Extents(live))
      modifies this`live, this`gaps
      ensures Placed()
      ensures live == old(live) + [Block(start, layout)] && gaps == old(gaps) + gap
      ensures Total(Extents(live)) == Total(old(Extents(live))) + Extent(Block(start, layout)).size
    {
      hide AlignUp, PowerOfTwo, SizeAlign, PairwiseApart, AllApart, AllSound, FitsLayout, Sound, Extent;
      var b := Block(start, layout);
      var extent := Extent(b);
      AppendKeeps(Extents(live), extent, regions, base, base + size);
      TotalAppend(Extents(live), extent);
      assert Extents(live + [b]) == Extents(live) + [extent];
      live := live + [b];
      gaps := gaps + gap;
    }

    /** `alloc`: the first region that fits, its tail returned to the list. */
    method Alloc(layout: Layout) returns (r: AllocResult)
      requires Valid() && layout.Good()
      modifies this`mem, this`head, this`regions, this`live, this`gaps
      ensures Valid()
      ensures r.Panic? <==>
        layout.size + (if layout.align < 8 then 8 else layout.align) - 1 > 0x7FFF_FFFF_FFFF_FFFF
      ensures r.Panic? <==> SizeAlign(layout).None?
      ensures SizeAlign(layout).Some? ==>
        var (bytes, align) := SizeAlign(layout).value;
        && Rounded(layout, bytes, align)
        && (r == Null <==> FitsNowhere(old(regions), bytes, align))
        && (r.Ptr? ==> Granted(old(regions), bytes, align, r.addr, regions))
      ensures !r.Ptr? ==> mem == old(mem) && regions == old(regions) && live == old(live) && gaps == old(gaps)
      ensures SizeAlign(layout).Some? ==>
        var (bytes, align) := SizeAlign(layout).value;
        var k := FirstFit(old(regions), bytes, align);
        if k == |old(regions)| then r == Null
        else
          && r == Ptr(AllocFrom(old(regions)[k], bytes, align).value)
          && gaps == old(gaps) + r.addr - old(regions)[k].start
          && regions == Tail(old(regions)[k], r.addr + bytes) + Without(old(regions), k)
      ensures r.Ptr? ==>
        && live == old(live) + [Block(r.addr, layout)]
        && r.addr > 0 && r.addr % layout.align == 0 && layout.size <= Extent(Block(r.addr, layout)).size
        && (layout.align <= 8 ==> gaps == old(gaps))
      ensures forall a | a in old(mem) && !old(Unowned(a)) :: a in mem && mem[a] == old(mem)[a]
    {
      hide AlignUp, PowerOfTwo, NodeAt, Threaded, Total, Unowned, PairwiseApart, AllApart, SizeAlign, AllocFrom,
           FirstFit, Rounded, FitsNowhere, Granted, Tail, Without;
      AllocTerms(layout, regions);
      var rounded := SizeAlign(layout);
      if rounded.None? { return Panic; }
      var (bytes, align) := rounded.value;
      SizeAlignFacts(layout);
      var found := FindRegion(bytes, align);
      if found.None? { return Null; }
      ghost var k := FirstFit(old(regions), bytes, align);
      WithoutKeeps(old(regions), k, Extents(live), base, base + size);
      TotalWithout(old(regions), k);
      var (region, start) := found.value;
      Carve(region, start, layout, old(regions)[k]);
      r := Ptr(start);
    }

    /** Hand out [start, start + size) of the unlinked region `whole`: its tail goes back
        to the list, its front gap is given up. */
    method Carve(region: nat, start: nat, layout: Layout, ghost whole: Region)
      requires Placed() && Threaded(mem, head, regions) && layout.Good() && SizeAlign(layout).Some?
      requires region == whole.start && region in mem && mem[region] == whole.size
      requires Sound(whole, base, base + size) && AllApart([whole], regions) && AllApart([whole], Extents(live))
      requires Total(regions) + whole.size + Total(Extents(live)) + gaps == size
      requires AllocFrom(whole, SizeAlign(layout).value.0, SizeAlign(layout).value.1) == Some(start)
      modifies this`mem, this`head, this`regions, this`live, this`gaps
      ensures Valid()
      ensures live == old(live) + [Block(start, layout)] && whole.start <= start && FitsLayout(Block(start, layout))
      ensures gaps == old(gaps) + (start - whole.start)
      ensures regions == Tail(whole, start + SizeAlign(layout).value.0) + old(regions)
      ensures SizeAlign(layout).value.1 == 8 ==> start == whole.start
      ensures forall a | a in old(mem) && !old(Unowned(a)) :: a in mem && mem[a] == old(mem)[a]
    {
      hide AlignUp, PowerOfTwo, NodeAt, Threaded, Total, Unowned, PairwiseApart, AllApart, AllSound, SizeAlign,
           AllocFrom;
      SizeAlignFacts(layout);
      var (bytes, align) := SizeAlign(layout).value;
      CarveFacts(whole, bytes, align, regions, Extents(live), base, base + size);
      var excess := region + mem[region] - (start + bytes);
      if excess > 0 {
        ghost var tail := Region(start + bytes, excess);
        TotalPush(tail, regions);
        PushApart(Region(start, bytes), tail, regions);
        AddFreeRegion(start + bytes, excess);
      }
      TakeBlock(start, layout, start - region);
    }

    /** `init`: the whole heap as one free region. */
    constructor (base: nat, size: nat, words: map<nat, nat>)
      requires 0 < base && base % 8 == 0 && size % 8 == 0 && size >= NODE_SIZE && base + size <= ISIZE_MAX
      requires forall a | base <= a < base + size && a % 8 == 0 :: a in words
      ensures Valid() && this.base == base && this.size == size
      ensures regions == [Region(base, size)] && live == [] && gaps == 0
    {
      this.base, this.size := base, size;
      head, mem := 0, words;
      regions, live, gaps := [], [], 0;
      new;
      AddFreeRegion(base, size);
      assert regions[1..] == [];
    }

    /** `dealloc`: the block's bytes become the list's first region. */
    method Dealloc(ptr: nat, layout: Layout)
      requires Valid() && Block(ptr, layout) in live
      modifies this`mem, this`head, this`regions, this`live
      ensures Valid() && gaps == old(gaps)
      ensures regions == [Extent(Block(ptr, layout))] + old(regions)
      ensures exists k | 0 <= k < |old(live)| :: old(live)[k] == Block(ptr, layout) && live == Without(old(live), k)
      ensures forall a | a in old(mem) && !Unowned(a) :: a in mem && mem[a] == old(mem)[a]
    {
      ghost var k :| 0 <= k < |live| && live[k] == Block(ptr, layout);
      var bytes := SizeAlign(layout).value.0;
      DropBlock(k);
      AddFreeRegion(ptr, bytes);
      TotalPush(Region(ptr, bytes), old(regions));
      assert old(live)[k] == Block(ptr, layout) && live == Without(old(live), k);
    }

    /** The k-th block is no longer live; its bytes are apart from all that is. */
    ghost method DropBlock(k: nat)
      requires Placed() && k < |live|
      modifies this`live
      ensures Placed() && live == Without(old(live), k)
      ensures Sound(old(Extents(live))[k], base, base + size)
      ensures AllApart([old(Extents(live))[k]], regions) && AllApart([old(Extents(live))[k]], Extents(live))
      ensures Total(Extents(live)) == Total(old(Extents(live))) - old(Extents(live))[k].size
    {
      hide PairwiseApart, AllApart, AllSound, FitsLayout, Extent;
      ApartFlips(regions, Extents(live));
      WithoutKeeps(Extents(live), k, regions, base, base + size);
      TotalWithout(Extents(live), k);
      SoundAt(Extents(live), k, base, base + size);
      assert Extents(Without(live, k)) == Without(Extents(live), k);
      live := Without(live, k);
      ApartFlips(Extents(live), regions);
    }

    /** The holder of a live block writes a word of it: the list is out of its reach. */
    method WriteLive(ghost k: nat, a: nat, w: nat)
      requires Valid() && k < |live| && live[k].ptr <= a && a + 8 <= Extent(live[k]).End() && a % 8 == 0
      modifies this`mem
      ensures Valid() && mem == old(mem)[a := w]
    {
      hide NodeAt, FitsLayout, PairwiseApart, Extent, Total;
      forall i | 0 <= i < |regions|
        ensures a != regions[i].start && a != regions[i].start + 8
      {
        assert Apart(regions[i], Extents(live)[k]) && Sound(regions[i], base, base + size);
        assert Extents(live)[k].start == live[k].ptr by { ExtentStarts(live[k]); }
      }
      mem := mem[a := w];
    }

    /** `stats`: the walk sums the free regions, and the subtraction never saturates. */
    method Stats() returns (used: nat, free: nat)
      requires Valid()
      ensures free == Total(regions) && used == size - free
      ensures used == Total(Extents(live)) + gaps
    {
      var total := 0;
      var cur := head;
      ghost var k := 0;
      while cur != 0
        invariant 0 <= k <= |regions| && cur == NodeAt(regions, k)
        invariant total + Total(regions[k..]) == Total(regions)
        decreases |regions| - k
      {
        assert cur == regions[k].start && regions[k..][1..] == regions[k + 1..];
        total := total + mem[cur];
        cur := mem[cur + 8];
        k := k + 1;
      }
      assert regions[|regions|..] == [];
      free := total;
      used := SaturatingSub(size, free);
    }

    /** Freeing a block and asking for the same layout again returns the same address,
        whatever the state. */
    method DeallocThenAlloc(ptr: nat, layout: Layout) returns (r: AllocResult)
      requires Valid() && Block(ptr, layout) in live
      modifies this`mem, this`head, this`regions, this`live, this`gaps
      ensures Valid() && r == Ptr(ptr) && gaps == old(gaps)
    {
      hide PowerOfTwo, NodeAt, Threaded, Unowned, PairwiseApart, AllApart, AllSound, AllocFrom, SizeAlign, FirstFit;
      ghost var k :| 0 <= k < |live| && live[k] == Block(ptr, layout);
      assert FitsLayout(live[k]) && Extents(live)[k] == Extent(live[k]);
      SoundAt(Extents(live), k, base, base + size);
      SizeAlignFacts(layout);
      ghost var (bytes, align) := SizeAlign(layout).value;
      ExactFit(Region(ptr, bytes), align, regions);
      Dealloc(ptr, layout);
      r := Alloc(layout);
    }
  }
}
