/** Whole runs of the allocator under the GlobalAlloc contract. The list threaded through
    memory refines a first-fit allocator on a plain list of regions, and what the holders
    of blocks have written stays written. */
module HeapRuns {
  import opened HeapLayout
  import opened Heap

  /** A request: allocate, free the k-th block still held, or write a word of it (the
      contract allows no other free or write). */
  datatype Request = Allocate(layout: Layout) | Free(k: nat) | Write(k: nat, offset: nat, word: nat)

  /** The answer to it. Freeing past the last block, or writing past a block, is refused. */
  datatype Answer = Answered(result: AllocResult) | Done | Refused

  // ---- The plain allocator ---------------------------------------------------------------------

  /** Free regions in list order, live blocks, bytes skipped, and the words of live blocks
      as last written. */
  datatype HeapState = HeapState(regions: seq<Region>, live: seq<Block>, gaps: int, written: map<nat, nat>)

  /** First fit: the block from the region's aligned start, the tail back in front. */
  ghost function Allocated(s: HeapState, layout: Layout): (HeapState, AllocResult)
    requires layout.Good()
  {
    if SizeAlign(layout).None? then (s, Panic)
    else
      var (bytes, align) := SizeAlign(layout).value;
      var k := FirstFit(s.regions, bytes, align);
      if k == |s.regions| then (s, Null)
      else
        var whole := s.regions[k];
        var start := AllocFrom(whole, bytes, align).value;
        (HeapState(Tail(whole, start + bytes) + Without(s.regions, k), s.live + [Block(start, layout)],
                   s.gaps + start - whole.start, s.written),
         Ptr(start))
  }

  /** The plain allocator in figures: it fails exactly if the request fits nowhere, and
      otherwise takes the first place where it does, cutting the region there. */
  lemma AllocatedExactly(s: HeapState, layout: Layout)
    requires layout.Good()
    ensures var (t, r) := Allocated(s, layout);
      && (r.Panic? <==> layout.size + (if layout.align < 8 then 8 else layout.align) - 1 > 0x7FFF_FFFF_FFFF_FFFF)
      && (!r.Ptr? ==> t == s)
      && (!r.Panic? ==> exists bytes, align ::
            && Rounded(layout, bytes, align)
            && (r == Null <==> FitsNowhere(s.regions, bytes, align))
            && (r.Ptr? ==> Granted(s.regions, bytes, align, r.addr, t.regions) && t.live == s.live + [Block(r.addr, layout)]))
  {
    hide SizeAlign, AllocFrom, FirstFit, Rounded, FitsNowhere, Granted, Tail, Without, PowerOfTwo;
    AllocTerms(layout, s.regions);
    if SizeAlign(layout).Some? {
      var (bytes, align) := SizeAlign(layout).value;
      assert Rounded(layout, bytes, align);
    }
  }

  /** The words outside a region. */
  ghost function Outside(written: map<nat, nat>, r: Region): map<nat, nat> {
    map a | a in written && !(r.start <= a < r.End()) :: written[a]
  }

  ghost function Served(s: HeapState, q: Request): (HeapState, Answer)
    requires q.Allocate? ==> q.layout.Good()
  {
    match q
    case Allocate(layout) => var (t, r) := Allocated(s, layout); (t, Answered(r))
    case Free(k) =>
      if k >= |s.live| then (s, Refused)
      else (HeapState([Extent(s.live[k])] + s.regions, Without(s.live, k), s.gaps, Outside(s.written, Extent(s.live[k]))), Done)
    case Write(k, offset, word) =>
      if k >= |s.live| || 8 * offset + 8 > Extent(s.live[k]).size then (s, Refused)
      else (s.(written := s.written[s.live[k].ptr + 8 * offset := word]), Done)
  }

  ghost predicate GoodRequests(requests: seq<Request>) {
    forall q | q in requests :: q.Allocate? ==> q.layout.Good()
  }

  ghost function Replayed(s: HeapState, requests: seq<Request>): (HeapState, seq<Answer>)
    requires GoodRequests(requests)
  {
    if requests == [] then (s, [])
    else
      var k := |requests| - 1;
      var (t, answers) := Replayed(s, requests[..k]);
      var (u, a) := Served(t, requests[k]);
      (u, answers + [a])
  }

  // ---- The heap serves requests as the plain allocator does ------------------------------------------

  ghost function Abs(heap: FreeListHeap, written: map<nat, nat>): HeapState
    reads heap
  {
    HeapState(heap.regions, heap.live, heap.gaps, written)
  }

  /** The word at `a` lies in a live block. */
  ghost predicate Owned(live: seq<Block>, a: nat) {
    exists i | 0 <= i < |live| :: InBlock(live[i], a)
  }

  ghost predicate InBlock(b: Block, a: nat) { b.ptr <= a && a + 8 <= Extent(b).End() }

  /** The words that holders wrote are in their blocks, and still what they wrote. */
  ghost predicate Kept(heap: FreeListHeap, written: map<nat, nat>)
    reads heap
  {
    forall a | a in written :: Owned(heap.live, a) && a in heap.mem && heap.mem[a] == written[a]
  }

  lemma OwnedIsNotUnowned(heap: FreeListHeap, a: nat)
    requires Owned(heap.live, a)
    ensures !heap.Unowned(a)
  {
    var i :| 0 <= i < |heap.live| && InBlock(heap.live[i], a);
    assert !(a + 8 <= heap.live[i].ptr || Extent(heap.live[i]).End() <= a);
  }

  lemma OwnedStays(live: seq<Block>, b: Block, a: nat)
    requires Owned(live, a)
    ensures Owned(live + [b], a)
  {
    var i :| 0 <= i < |live| && InBlock(live[i], a);
    assert InBlock((live + [b])[i], a);
  }

  /** A word owned, but not by the k-th block, is owned without it. */
  lemma OwnedWithout(live: seq<Block>, k: nat, a: nat)
    requires Owned(live, a) && k < |live| && !(Extent(live[k]).start <= a < Extent(live[k]).End())
    ensures Owned(Without(live, k), a)
  {
    hide Extent, Without;
    var i :| 0 <= i < |live| && InBlock(live[i], a);
    ExtentStarts(live[k]);
    var j := if i < k then i else i - 1;
    assert InBlock(Without(live, k)[j], a);
  }

  method Ask(heap: FreeListHeap, layout: Layout, ghost written: map<nat, nat>) returns (r: AllocResult)
    requires heap.Valid() && layout.Good() && Kept(heap, written)
    modifies heap
    ensures heap.Valid() && Kept(heap, written)
    ensures (Abs(heap, written), r) == Allocated(old(Abs(heap, written)), layout)
    ensures layout.align <= 8 ==> heap.gaps == old(heap.gaps)
  {
    hide PowerOfTwo, Threaded, PairwiseApart, AllApart, AllSound, FirstFit, AllocFrom, SizeAlign, Tail, Without,
         FreeListHeap.Unowned, Owned, Extent;
    forall a | a in written ensures !heap.Unowned(a) {
      OwnedIsNotUnowned(heap, a);
    }
    r := heap.Alloc(layout);
    if r.Ptr? {
      forall a | a in written ensures Owned(heap.live, a) {
        OwnedStays(old(heap.live), Block(r.addr, layout), a);
      }
    }
  }

  method ReturnBlock(heap: FreeListHeap, b: Block, ghost k: nat, ghost written: map<nat, nat>)
    requires heap.Valid() && k < |heap.live| && b == heap.live[k] && Kept(heap, written)
    modifies heap
    ensures heap.Valid() && heap.gaps == old(heap.gaps) && heap.live == Without(old(heap.live), k)
    ensures heap.regions == [Extent(b)] + old(heap.regions)
    ensures Kept(heap, Outside(written, Extent(b)))
  {
    hide PowerOfTwo, Threaded, PairwiseApart, AllApart, AllSound, Extent, FreeListHeap.Unowned, Owned;
    LiveOnce(heap, k);
    assert b in heap.live;
    heap.Dealloc(b.ptr, b.layout);
    forall a | a in Outside(written, Extent(b))
      ensures Owned(heap.live, a) && !heap.Unowned(a)
    {
      OwnedWithout(old(heap.live), k, a);
      OwnedIsNotUnowned(heap, a);
    }
  }

  method WriteWord(heap: FreeListHeap, b: Block, offset: nat, word: nat, ghost k: nat, ghost written: map<nat, nat>)
    requires heap.Valid() && k < |heap.live| && b == heap.live[k] && Kept(heap, written)
    requires 8 * offset + 8 <= Extent(b).size
    modifies heap
    ensures heap.Valid() && heap.live == old(heap.live) && heap.regions == old(heap.regions) && heap.gaps == old(heap.gaps)
    ensures Kept(heap, written[b.ptr + 8 * offset := word])
  {
    hide PowerOfTwo, Threaded, PairwiseApart, AllApart, AllSound, Extent, FreeListHeap.Unowned, Owned, SizeAlign;
    WordOfBlock(heap, k);
    ExtentStarts(b);
    heap.WriteLive(k, b.ptr + 8 * offset, word);
    OwnsWord(heap.live, k, b.ptr + 8 * offset);
  }

  lemma OwnsWord(live: seq<Block>, k: nat, a: nat)
    requires k < |live| && live[k].ptr <= a && a + 8 <= Extent(live[k]).End()
    ensures Owned(live, a)
  {
    assert InBlock(live[k], a);
  }

  /** One request, served on what the caller holds. */
  method Serve(heap: FreeListHeap, q: Request, held: seq<Block>, ghost written: map<nat, nat>)
    returns (a: Answer, held': seq<Block>, ghost written': map<nat, nat>)
    requires heap.Valid() && Kept(heap, written) && held == heap.live && (q.Allocate? ==> q.layout.Good())
    modifies heap
    ensures heap.Valid() && Kept(heap, written') && held' == heap.live
    ensures (Abs(heap, written'), a) == Served(old(Abs(heap, written)), q)
    ensures (q.Allocate? ==> q.layout.align <= 8) ==> heap.gaps == old(heap.gaps)
  {
    hide PowerOfTwo, Threaded, PairwiseApart, AllApart, AllSound, SizeAlign, Kept, FreeListHeap.Valid, Without, Outside;
    held', written' := held, written;
    match q
    case Allocate(layout) =>
      var r := Ask(heap, layout, written);
      if r.Ptr? { held' := held + [Block(r.addr, layout)]; }
      a := Answered(r);
    case Free(k) =>
      if k >= |held| { return Refused, held, written; }
      ReturnBlock(heap, held[k], k, written);
      held', written' := Without(held, k), Outside(written, Extent(held[k]));
      a := Done;
    case Write(k, offset, word) =>
      if k >= |held| { return Refused, held, written; }
      var size := HeldSize(heap, held[k], k);
      if 8 * offset + 8 > size { return Refused, held, written; }
      WriteWord(heap, held[k], offset, word, k, written);
      written' := written[held[k].ptr + 8 * offset := word];
      a := Done;
  }

  /** The bytes set aside for a block, as its holder computes them from the layout. */
  method HeldSize(heap: FreeListHeap, b: Block, ghost k: nat) returns (size: nat)
    requires heap.Valid() && k < |heap.live| && b == heap.live[k]
    ensures size == Extent(b).size
  {
    WordOfBlock(heap, k);
    size := SizeAlign(b.layout).value.0;
  }

  /** Any run of requests: every answer, and the final regions, blocks and gaps, are those
      of the plain allocator; every word that holders wrote into blocks they still hold is
      in memory as they wrote it; and no byte was skipped if no alignment exceeded 8. */
  method Run(heap: FreeListHeap, requests: seq<Request>)
    returns (held: seq<Block>, answers: seq<Answer>, ghost written: map<nat, nat>)
    requires heap.Valid() && heap.live == [] && GoodRequests(requests)
    modifies heap
    ensures heap.Valid() && held == heap.live
    ensures (Abs(heap, written), answers) == Replayed(old(Abs(heap, map[])), requests)
    ensures Kept(heap, written)
    ensures (forall q | q in requests :: q.Allocate? ==> q.layout.align <= 8) ==> heap.gaps == old(heap.gaps)
  {
    hide Served, FreeListHeap.Valid, Kept, Abs;
    held, answers, written := [], [], map[];
    NothingKept(heap);
    assert requests[..0] == [];
    for i := 0 to |requests|
      invariant heap.Valid() && held == heap.live && Kept(heap, written)
      invariant (Abs(heap, written), answers) == Replayed(old(Abs(heap, map[])), requests[..i])
      invariant (forall q | q in requests[..i] :: q.Allocate? ==> q.layout.align <= 8) ==> heap.gaps == old(heap.gaps)
    {
      assert requests[i] in requests && requests[..i + 1][..i] == requests[..i];
      assert forall q | q in requests[..i] :: q in requests[..i + 1];
      assert requests[i] in requests[..i + 1];
      var a;
      a, held, written := Serve(heap, requests[i], held, written);
      answers := answers + [a];
    }
    assert requests[..|requests|] == requests;
  }

  lemma NothingKept(heap: FreeListHeap)
    ensures Kept(heap, map[])
  {
  }

  lemma WordOfBlock(heap: FreeListHeap, k: nat)
    requires heap.Valid() && k < |heap.live|
    ensures var b := heap.live[k];
      && b.layout.Good() && SizeAlign(b.layout).Some? && b.ptr % 8 == 0
      && Extent(b).size == SizeAlign(b.layout).value.0
  {
    assert FitsLayout(heap.live[k]) && Sound(Extents(heap.live)[k], heap.base, heap.base + heap.size);
  }

  /** Regions lying apart are distinct. */
  lemma ApartDistinct(e: seq<Region>)
    requires PairwiseApart(e) && forall i | 0 <= i < |e| :: e[i].size > 0
    ensures forall j, k | 0 <= j < k < |e| :: e[j] != e[k]
  {
    forall j, k | 0 <= j < k < |e| ensures e[j] != e[k] {
      assert Apart(e[j], e[k]);
    }
  }

  lemma LiveOnce(heap: FreeListHeap, k: nat)
    requires heap.Valid() && k < |heap.live|
    ensures forall j | 0 <= j < |heap.live| && heap.live[j] == heap.live[k] :: j == k
  {
    var e := Extents(heap.live);
    assert forall i | 0 <= i < |e| :: Sound(e[i], heap.base, heap.base + heap.size);
    ApartDistinct(e);
    assert forall j | 0 <= j < |e| && heap.live[j] == heap.live[k] :: e[j] == e[k];
  }
}
