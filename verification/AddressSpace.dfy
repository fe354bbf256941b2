/** The operations of src/paging.rs on live tables. `pages` is the abstract map that the
    tables refine: `Valid` says that every walk of every 64-bit address agrees with it. */
module AddressSpace {
  import opened Common
  import opened Frames
  import opened LittleEndian
  import opened FrameAddress
  import opened PageWalk
  import opened PageTree
  import opened Paging
  import PagingFormat

  const PAGE_ALIGN: bv64 := 0xFFFF_FFFF_FFFF_F000

  /** Physical addresses below 2^52. */
  predicate GoodPhys(phys: bv64) { phys & 0xFFF0_0000_0000_0000 == 0 }

  function RoundDown(addr: bv64): bv64 { addr & PAGE_ALIGN }

  lemma RoundDownPage(addr: bv64)
    ensures Page(RoundDown(addr)) == Page(addr)
  {
  }

  lemma RoundDownPhys(phys: bv64)
    requires GoodPhys(phys)
    ensures AddrOf(RoundDown(phys)) == RoundDown(phys)
  {
  }

  /** What a mapping call asks for: the frame's first byte, the kind of page, and whether
      the flags have the write bit. */
  function Asked(phys: bv64, flags: bv64, user: bool): Mapping {
    Mapping(phys & 0xFFFF_FFFF_FFFF_F000, user, flags & 2 != 0)
  }

  lemma AskedIs(phys: bv64, flags: bv64, user: bool)
    requires GoodPhys(phys)
    ensures Asked(phys, flags, user) == Mapping(RoundDown(phys), user, Writable(flags))
    ensures Asked(phys, flags, user).frame & 0xFFF == 0
  {
    PagingFormat.WriteBit(flags);
    RoundsToPage(phys);
  }

  lemma RoundsToPage(phys: bv64)
    ensures RoundDown(phys) == phys & 0xFFFF_FFFF_FFFF_F000 && RoundDown(phys) & 0xFFF == 0
  {
  }

  lemma MapAligned(pages: Pages, page: VPage, m: Mapping)
    requires AlignedFrames(pages) && m.frame & 0xFFF == 0
    ensures AlignedFrames(pages[page := m])
  {
  }

  lemma UnmapAligned(pages: Pages, page: VPage)
    requires AlignedFrames(pages)
    ensures AlignedFrames(pages - {page})
  {
  }

  lemma AttachInTwoSteps(mem: Memory, f: Frame, i: nat, g: Frame, w: bv64)
    requires f in mem && i < |mem[f]| && g !in mem
    ensures mem[g := ZeroTable()][f := mem[f][i := w]] == Attach(mem, f, i, g, w)
  {
  }

  method ZeroFrame() returns (words: seq<bv64>)
    ensures words == ZeroTable()
  {
    var frame := new bv64[TABLE_LEN];
    for k := 0 to TABLE_LEN
      invariant forall j | 0 <= j < k :: frame[j] == 0
    {
      frame[k] := 0;
    }
    words := frame[..];
  }

  const USER_ADDR_LIMIT := 0x8000_0000_0000

  /** The byte at address x lies on a page that ring 3 may read. */
  ghost predicate UserByte(pages: Pages, x: nat) { UserPage(pages, Word(x)) }

  ghost predicate AllUser(pages: Pages, from: nat, to: nat) {
    forall x: nat | from <= x < to :: UserByte(pages, x)
  }

  lemma SamePageSameUser(pages: Pages, x: nat, y: nat)
    requires x / FRAME_SIZE == y / FRAME_SIZE && x < U64 && y < U64
    ensures UserByte(pages, x) == UserByte(pages, y)
  {
    hide Word, Page;
    PageOfNumber(x, y);
  }

  predicate Aligned(n: nat) { n % FRAME_SIZE == 0 }

  function PageStart(n: nat): nat { n / FRAME_SIZE * FRAME_SIZE }

  lemma PageStartFacts(n: nat)
    ensures Aligned(PageStart(n)) && PageStart(n) <= n < PageStart(n) + FRAME_SIZE
  {
  }

  lemma NextPage(page: nat, last: nat)
    requires Aligned(page) && Aligned(last) && page < last
    ensures Aligned(page + FRAME_SIZE) && page + FRAME_SIZE <= last
  {
  }

  /** One walk decides for the whole page. */
  lemma PageDecides(pages: Pages, page: nat)
    requires Aligned(page)
    ensures forall x: nat | page <= x < page + FRAME_SIZE && x < U64 ::
      UserByte(pages, x) == UserPage(pages, Word(page))
  {
    hide UserPage;
    forall x: nat | page <= x < page + FRAME_SIZE && x < U64
      ensures UserByte(pages, x) == UserPage(pages, Word(page))
    {
      SamePageSameUser(pages, x, page);
    }
  }

  /** The frames below 1 GiB. */
  ghost function LowOf(s: set<int>): set<int> { set i | i in s && i < 0x4_0000 }

  /** What a request for a table comes to: a zeroed frame, no free frame at all, or the
      panic over a frame that the identity window does not reach. */
  datatype NewTable = Zeroed(frame: Frame) | Exhausted | OutOfReach

  /** How a mapping call has to end, from the tables missing on the path of `virt` and the
      numbers of free frames below 1 GiB and from there on. */
  function Outcome(virt: bv64, missing: nat, low: nat, high: nat): Option<MapError> {
    if InIdentity(virt) then Some(HugePage)
    else if missing <= low then None
    else if high == 0 then Some(OutOfFrames)
    else Some(Panicked)
  }

  /** The free frames that it leaves, and how far down the path there are tables then. */
  function LowLeft(r: Option<MapError>, missing: nat, low: nat): nat {
    if r == Some(HugePage) then low else SaturatingSub(low, missing)
  }

  function HighLeft(r: Option<MapError>, high: nat): nat {
    if r == Some(Panicked) then SaturatingSub(high, 1) else high
  }

  function DepthLeft(r: Option<MapError>, missing: nat, low: nat): (n: nat)
    ensures n <= 3
  {
    if r == Some(HugePage) then 0 else if r.None? then 3 else Min(3, SaturatingSub(3 + low, missing))
  }

  lemma JoinUnion<T>(a: set<T>, b: set<T>, x: T)
    ensures a + b + {x} == a + (b + {x})
  {
  }

  lemma Succeeds(virt: bv64, missing: nat, low: nat, high: nat)
    requires !InIdentity(virt) && missing <= low
    ensures Outcome(virt, missing, low, high) == None
    ensures LowLeft(None, missing, low) == low - missing && HighLeft(None, high) == high
    ensures DepthLeft(None, missing, low) == 3
  {
  }

  /** Out of frames at this level, all low frames used up. */
  lemma EndsShort(virt: bv64, missing: nat, low: nat, high: nat, level: nat, r: Option<MapError>)
    requires !InIdentity(virt) && 0 < level <= 3 && missing - low == level
    requires r == if high == 0 then Some(OutOfFrames) else Some(Panicked)
    ensures Outcome(virt, missing, low, high) == r
    ensures LowLeft(r, missing, low) == 0 && DepthLeft(r, missing, low) == 3 - level
  {
  }

  lemma EndsHuge(virt: bv64, missing: nat, low: nat, high: nat)
    requires InIdentity(virt)
    ensures Outcome(virt, missing, low, high) == Some(HugePage)
    ensures LowLeft(Some(HugePage), missing, low) == low && HighLeft(Some(HugePage), high) == high
    ensures DepthLeft(Some(HugePage), missing, low) == 0
  {
  }

  /** What a request for a table does to the numbers of free frames. */
  predicate Spent(r: NewTable, low0: nat, high0: nat, low: nat, high: nat) {
    && (r.Zeroed? <==> low0 > 0) && (r.Exhausted? <==> low0 == 0 && high0 == 0)
    && low == SaturatingSub(low0, 1) && high == if r.OutOfReach? then high0 - 1 else high0
  }

  /** An address that passes the source's assertion on user addresses and still walks
      into the window's large pages. */
  lemma HighAddressInWindow()
    ensures exists virt: bv64 :: virt >= IDENTITY_LIMIT && InIdentity(virt)
  {
    var virt: bv64 := 0x1_0000_0000_0000;
    assert virt >= IDENTITY_LIMIT && InIdentity(virt);
  }

  class AddressSpace {
    const frames: FrameAllocator
    var mem: Memory
    var root: Frame
    ghost var place: Places
    ghost var pdpt: Frame
    ghost var pd: Frame
    ghost var pages: Pages

    /** Frames still to be handed out hold no table. */
    ghost predicate FreshFrames()
      requires frames.bitmap.Length == BITMAP_WORDS
      reads this`mem, frames.bitmap
    {
      forall i | i in frames.Free() :: 0 <= i < FRAME_COUNT && Frame(FrameAddr(i)) !in mem
    }

    /** The free frames that can become tables. */
    ghost function Low(): (s: set<int>)
      requires frames.bitmap.Length == BITMAP_WORDS
      reads frames.bitmap
      ensures s <= frames.Free()
    {
      LowOf(frames.Free())
    }

    /** The others. */
    ghost function High(): set<int>
      requires frames.bitmap.Length == BITMAP_WORDS
      reads frames.bitmap
    {
      frames.Free() - Low()
    }

    ghost predicate Shaped()
      reads this
    {
      Tree(mem, place, root) && Window(mem, place, root, pdpt, pd)
    }

    ghost predicate Valid()
      reads this, frames, frames.bitmap
    {
      frames.Valid() && FreshFrames() && Shaped() && Agree(mem, root, pages) && AlignedFrames(pages)
    }

    /** `build_address_space`. The source panics unless three frames can be had. */
    constructor (frames: FrameAllocator)
      requires frames.Valid() && |LowOf(frames.Free())| >= 3
      modifies frames`freeFrames, frames`held, frames.bitmap
      ensures Valid() && this.frames == frames && pages == map[]
    {
      this.frames := frames;
      mem := map[];
      new;
      hide Valid, FreshFrames, Low, FrameAllocator.Valid, FrameAllocator.Free;
      AnyFrameIsFresh();
      Build();
    }

    method Build()
      requires frames.Valid() && FreshFrames() && |Low()| >= 3 && mem == map[]
      modifies frames`freeFrames, frames`held, frames.bitmap
      modifies this`mem, this`root, this`pdpt, this`pd, this`place, this`pages
      ensures Valid() && pages == map[]
    {
      hide Valid, Built, BuiltPlaces, FreshFrames, Low, FrameAllocator.Valid, FrameAllocator.Free;
      root, pdpt, pd := BuildTables();
      place, pages := BuiltPlaces(root, pdpt, pd), map[];
      BuiltIsValid();
    }

    /** With no table yet, no free frame holds one. */
    lemma AnyFrameIsFresh()
      requires frames.Valid() && mem == map[]
      ensures FreshFrames() && |Low()| == |LowOf(frames.Free())|
    {
      hide FrameAddr, FrameAllocator.IsUsed;
    }

    lemma BuiltIsValid()
      requires frames.Valid() && FreshFrames() && Built(mem, root, pdpt, pd)
      requires place == BuiltPlaces(root, pdpt, pd) && pages == map[]
      ensures Valid()
    {
      hide Built, Tree, Window, Agree, BuiltPlaces, FreshFrames;
      BuiltAgrees(mem, root, pdpt, pd);
    }

    method BuildTables() returns (pml4: Frame, pdptTable: Frame, pdTable: Frame)
      requires frames.Valid() && FreshFrames() && |Low()| >= 3 && mem == map[]
      modifies frames`freeFrames, frames`held, frames.bitmap, this`mem
      ensures frames.Valid() && FreshFrames() && Built(mem, pml4, pdptTable, pdTable)
    {
      hide AddrOf, FrameAddr, LinkTo, IdentityEntry, ZeroTable, Built;
      pml4, pdptTable, pdTable := ThreeTables();
      FillWindow(pdTable);
      LinkTables(pml4, pdptTable, pdTable);
    }

    method LinkTables(pml4: Frame, pdptTable: Frame, pdTable: Frame)
      requires pml4 != pdptTable && pml4 != pdTable && pdptTable != pdTable && mem.Keys == {pml4, pdptTable, pdTable}
      requires mem[pml4] == ZeroTable() && mem[pdptTable] == ZeroTable()
      requires |mem[pdTable]| == TABLE_LEN && forall i | 0 <= i < TABLE_LEN :: mem[pdTable][i] == IdentityEntry(i)
      requires forall f | f in mem :: f.addr < IDENTITY_LIMIT && AddrOf(f.addr) == f.addr
      modifies this`mem
      ensures mem.Keys == old(mem.Keys) && Built(mem, pml4, pdptTable, pdTable)
    {
      hide AddrOf, LinkTo, IdentityEntry, ZeroTable;
      mem := mem[pdptTable := mem[pdptTable][0 := LinkTo(pdTable, false)]];
      mem := mem[pml4 := mem[pml4][0 := LinkTo(pdptTable, false)]];
      assert mem.Keys == old(mem.Keys);
    }

    method ThreeTables() returns (a: Frame, b: Frame, c: Frame)
      requires frames.Valid() && FreshFrames() && |Low()| >= 3 && mem == map[]
      modifies frames`freeFrames, frames`held, frames.bitmap, this`mem
      ensures frames.Valid() && FreshFrames()
      ensures a != b && a != c && b != c && mem == map[a := ZeroTable(), b := ZeroTable(), c := ZeroTable()]
      ensures forall f | f in mem :: f.addr < IDENTITY_LIMIT && AddrOf(f.addr) == f.addr
    {
      hide AddrOf, FrameAddr, ZeroTable, FreshFrames, Low, High, FrameAllocator.Free;
      var first := AllocTable();
      var second := AllocTable();
      var third := AllocTable();
      a, b, c := first.frame, second.frame, third.frame;
    }

    /** Entry i of the PD maps the 2 MiB page at i * 2 MiB. */
    method FillWindow(table: Frame)
      requires table in mem && |mem[table]| == TABLE_LEN
      modifies this`mem
      ensures mem.Keys == old(mem.Keys) && |mem[table]| == TABLE_LEN
      ensures forall f | f in mem && f != table :: mem[f] == old(mem)[f]
      ensures forall i | 0 <= i < TABLE_LEN :: mem[table][i] == IdentityEntry(i)
    {
      hide IdentityEntry;
      for i := 0 to TABLE_LEN
        invariant mem.Keys == old(mem.Keys) && |mem[table]| == TABLE_LEN
        invariant forall f | f in mem && f != table :: mem[f] == old(mem)[f]
        invariant forall j | 0 <= j < i :: mem[table][j] == IdentityEntry(j)
      {
        mem := mem[table := mem[table][i := IdentityEntry(i)]];
      }
    }

    method ReadEntry(table: Frame, index: nat) returns (e: bv64)
      requires Shaped() && table in place && index < TABLE_LEN
      ensures e == EntryOf(mem, table, index) == mem[table][index]
    {
      e := mem[table][index];
    }

    /** One frame off the allocator, its stale contents overwritten with zeros. The
        allocator hands out the lowest frame, so one out of reach only as the last resort. */
    method AllocTable() returns (r: NewTable)
      requires frames.Valid() && FreshFrames()
      modifies frames`freeFrames, frames`held, frames.bitmap, this`mem
      ensures frames.Valid() && FreshFrames()
      ensures Spent(r, old(|Low()|), old(|High()|), |Low()|, |High()|)
      ensures !r.Zeroed? ==> mem == old(mem)
      ensures r.Zeroed? ==>
        && r.frame !in old(mem) && r.frame.addr < IDENTITY_LIMIT && AddrOf(r.frame.addr) == r.frame.addr
        && mem == old(mem)[r.frame := ZeroTable()]
    {
      hide AddrOf, FrameAddr, FrameAllocator.Free, Low, High, Spent;
      r := TakeFrame();
      if r.Zeroed? {
        var words := ZeroFrame();
        mem := mem[r.frame := words];
      }
    }

    /** The frame, not yet zeroed. */
    method TakeFrame() returns (r: NewTable)
      requires frames.Valid() && FreshFrames()
      modifies frames`freeFrames, frames`held, frames.bitmap
      ensures frames.Valid() && FreshFrames()
      ensures Spent(r, old(|Low()|), old(|High()|), |Low()|, |High()|)
      ensures r.Zeroed? ==>
        && r.frame !in mem && r.frame.addr < IDENTITY_LIMIT && AddrOf(r.frame.addr) == r.frame.addr
        && forall i | i in frames.Free() :: FrameAddr(i) != r.frame.addr
    {
      hide AddrOf, FrameAddr, FrameAllocator.Free, Low, High;
      var index := frames.Alloc();
      CountFrames(old(frames.Free()), index);
      LowIs();
      if index.None? { return Exhausted; }
      if index.value >= WINDOW_FRAMES { return OutOfReach; }
      FrameAddrAligned(index.value);
      FrameAddrLow(index.value);
      forall i | i in frames.Free() ensures FrameAddr(i) != FrameAddr(index.value) {
        if FrameAddr(i) == FrameAddr(index.value) { FrameAddrInjective(i, index.value); }
      }
      r := Zeroed(Frame(FrameAddr(index.value)));
    }

    twostate lemma LowIs()
      requires frames.bitmap.Length == BITMAP_WORDS
      ensures old(Low()) == LowOf(old(frames.Free())) && old(High()) == old(frames.Free()) - LowOf(old(frames.Free()))
    {
      hide FrameAllocator.Free;
    }

    /** The lowest free frame taken: which of the two numbers goes down. */
    lemma CountFrames(free: set<int>, index: Option<int>)
      requires frames.bitmap.Length == BITMAP_WORDS
      requires index.None? <==> free == {}
      requires index.None? ==> frames.Free() == free
      requires index.Some? ==>
        index.value in free && (forall j | j in free :: index.value <= j) && frames.Free() == free - {index.value}
      ensures var low, high := LowOf(free), free - LowOf(free);
        && (index.Some? && index.value < WINDOW_FRAMES <==> |low| > 0)
        && (index.None? <==> |low| == 0 && |high| == 0)
        && |Low()| == SaturatingSub(|low|, 1)
        && |High()| == if index.Some? && index.value >= WINDOW_FRAMES then |high| - 1 else |high|
    {
      hide FrameAllocator.Free;
      var low := LowOf(free);
      var high := free - low;
      if index.Some? {
        CountRemoved(low, index.value);
        CountRemoved(high, index.value);
        assert Low() == low - {index.value} && High() == high - {index.value};
        if index.value >= WINDOW_FRAMES { assert low == {}; }
        if index.value < WINDOW_FRAMES { assert index.value in low; }
      } else {
        assert low == {} && high == {} && Low() == {} && High() == {};
      }
    }

    /** OR USER into the link at (f, i). */
    method Loosen(f: Frame, i: nat)
      requires Valid() && f in place && i < TABLE_LEN && Links(mem, place, f, i)
      modifies this`mem
      ensures Valid() && mem == Put(old(mem), f, i, Loosened(old(mem)[f][i]))
    {
      hide Loosened, Links, Tree, Window, Agree, FrameAllocator.Valid, FrameAllocator.Free, FrameAddr;
      TreeTable(mem, place, root, f);
      LoosenTree(mem, place, root, f, i);
      LoosenWindow(mem, place, root, pdpt, pd, f, i);
      LoosenAgrees(mem, place, root, pages, f, i);
      mem := mem[f := mem[f][i := Loosened(mem[f][i])]];
    }

    /** Allocate a table and link it from the absent entry (f, i). */
    method Extend(f: Frame, i: nat, user: bool) returns (r: NewTable)
      requires Valid() && f in place && i < TABLE_LEN && |place[f]| < 3 && !Present(mem[f][i])
      modifies frames`freeFrames, frames`held, frames.bitmap, this`mem, this`place
      ensures Valid()
      ensures Spent(r, old(|Low()|), old(|High()|), |Low()|, |High()|)
      ensures !r.Zeroed? ==> place == old(place)
      ensures r.Zeroed? ==>
        && r.frame !in old(mem) && r.frame !in old(place) && AddrOf(r.frame.addr) == r.frame.addr
        && mem == Attach(old(mem), f, i, r.frame, LinkTo(r.frame, user))
        && place == old(place)[r.frame := old(place)[f] + [i]]
    {
      hide Present, Huge, AddrOf, NextTable, LinkTo, FrameAddr, Tree, Window, Agree, Low, High, FreshFrames,
           Attach, ZeroTable, Spent;
      TreeTable(mem, place, root, f);
      r := AllocTable();
      if r.Zeroed? {
        LinkTable(old(mem), f, i, r.frame, user);
      }
    }

    /** Link the zeroed table g, which `before` did not hold. */
    method LinkTable(ghost before: Memory, f: Frame, i: nat, g: Frame, user: bool)
      requires frames.Valid() && FreshFrames() && mem == before[g := ZeroTable()] && g !in before
      requires Tree(before, place, root) && Window(before, place, root, pdpt, pd) && Agree(before, root, pages)
      requires AlignedFrames(pages)
      requires f in place && i < TABLE_LEN && |place[f]| < 3 && !Present(before[f][i])
      requires g.addr < IDENTITY_LIMIT && AddrOf(g.addr) == g.addr
      modifies this`mem, this`place
      ensures Valid()
      ensures mem == Attach(before, f, i, g, LinkTo(g, user)) && place == old(place)[g := old(place)[f] + [i]]
    {
      hide Present, AddrOf, LinkTo, FrameAddr, Tree, Window, Agree, Attach, ZeroTable, FrameAllocator.Free,
           FrameAllocator.Valid;
      TreeTable(before, place, root, f);
      AttachValid(before, place, root, pdpt, pd, pages, f, i, g, user);
      AttachInTwoSteps(before, f, i, g, LinkTo(g, user));
      assert f in mem && mem[f] == before[f];
      mem := mem[f := mem[f][i := LinkTo(g, user)]];
      place := place[g := place[f] + [i]];
    }

    /** An existing link without USER gets it, and the descent follows it. */
    method LoosenStep(table: Frame, virt: bv64, level: nat) returns (next: Frame)
      requires Valid() && 0 < level < 4 && Reached(mem, place, root, table, virt, level, true)
      requires table in place && Links(mem, place, table, Index(virt, level))
      modifies this`mem
      ensures Valid() && next == NextTable(old(mem)[table][Index(virt, level)])
      ensures Reached(mem, place, root, next, virt, level - 1, true)
      ensures Missing(mem, next, virt, level - 1) == old(Missing(mem, table, virt, level))
    {
      var index := Index(virt, level);
      next := NextTable(mem[table][index]);
      FollowLoosened(mem, place, root, table, virt, level);
      MissingLoosened(mem, table, index, next, virt, level - 1);
      MissingUnfolds(mem, table, virt, level);
      hide Tree, Window, Agree, Put, Reached, Present, Huge, NextTable, Index, Loosened, Links, Missing;
      Loosen(table, index);
    }

    /** A missing table is created and linked, and the descent enters it. */
    method ExtendStep(table: Frame, virt: bv64, level: nat, user: bool) returns (next: NewTable)
      requires Valid() && 0 < level < 4 && Reached(mem, place, root, table, virt, level, user)
      requires table in place && |place[table]| < 3 && !Present(mem[table][Index(virt, level)])
      modifies frames`freeFrames, frames`held, frames.bitmap, this`mem, this`place
      ensures Valid()
      ensures Spent(next, old(|Low()|), old(|High()|), |Low()|, |High()|)
      ensures !next.Zeroed? ==> place == old(place)
      ensures next.Zeroed? ==>
        && Reached(mem, place, root, next.frame, virt, level - 1, user)
        && Missing(mem, next.frame, virt, level - 1) == level - 1
        && Tables(place) == old(Tables(place)) + {old(place)[table] + [Index(virt, level)]}
    {
      hide Window, Agree, Attach, Present, User, Huge, NextTable, Index, LinkTo, AddrOf, FrameAddr, Reached, Tree,
           Missing, Low, High, Spent, Tables;
      var i := Index(virt, level);
      TreeTable(mem, place, root, table);
      next := Extend(table, i, user);
      if next.Zeroed? {
        FollowAttached(old(mem), old(place), root, table, virt, level, user, next.frame);
        MissingAttached(old(mem), table, i, next.frame, LinkTo(next.frame, user), virt, level - 1);
        TablesPlus(old(place), next.frame, old(place)[table] + [i]);
      }
    }

    /** The descent goes on through a link, loosened first if need be. */
    method FollowStep(table: Frame, virt: bv64, level: nat, user: bool) returns (next: Frame)
      requires Valid() && 0 < level < 4 && Reached(mem, place, root, table, virt, level, user)
      requires table in place && Links(mem, place, table, Index(virt, level)) && |place[table]| == 3 - level
      modifies this`mem
      ensures Valid() && next == NextTable(old(mem)[table][Index(virt, level)])
      ensures Reached(mem, place, root, next, virt, level - 1, user)
      ensures Missing(mem, next, virt, level - 1) == old(Missing(mem, table, virt, level))
    {
      var entry := ReadEntry(table, Index(virt, level));
      MissingUnfolds(mem, table, virt, level);
      hide Window, Agree, Tree, Index, NextTable, OnPath, ReachAt, FreshFrames, Path, Missing, Present, User, Huge;
      if user && !User(entry) {
        next := LoosenStep(table, virt, level);
      } else {
        FollowLink(mem, place, root, table, virt, level, user);
        next := NextTable(entry);
      }
    }

    /** What the entry on the path says about the descent. */
    lemma EntryMeans(table: Frame, virt: bv64, level: nat, user: bool)
      requires Shaped() && 0 < level < 4 && Reached(mem, place, root, table, virt, level, user)
      requires InIdentity(virt) ==> WindowTable(root, pdpt, pd, table, level)
      ensures table in place && table in mem && |mem[table]| == TABLE_LEN && |place[table]| == 3 - level
      ensures var e := mem[table][Index(virt, level)];
        && e == EntryOf(mem, table, Index(virt, level))
        && (Present(e) && level <= 2 && Huge(e) ==> InIdentity(virt))
        && (Present(e) && !(level <= 2 && Huge(e)) ==> Links(mem, place, table, Index(virt, level)))
        && (!Present(e) ==> !InIdentity(virt) && Missing(mem, table, virt, level) == level)
        && place[table] + [Index(virt, level)] == Path(virt)[..4 - level]
        && (Links(mem, place, table, Index(virt, level)) ==> Path(virt)[..4 - level] in Tables(place))
        && (InIdentity(virt) && !(level <= 2 && Huge(e)) ==>
              level > 1 && WindowTable(root, pdpt, pd, NextTable(e), level - 1))
    {
      hide Index, InIdentity, NextTable, ReachAt, Path, Missing, Present, Huge, Descending, AllLinked, Tables;
      PathSplits(virt, level);
      LinkedExactly(mem, place, root, table, virt, level);
      MissingUnfolds(mem, table, virt, level);
      if InIdentity(virt) { WindowStep(mem, place, root, pdpt, pd, table, virt, level); }
      var e := EntryOf(mem, table, Index(virt, level));
      if Present(e) && Huge(e) { HugeMeansWindow(mem, place, root, table, virt, level); }
    }

    /** One level of the descent of `map_inner`. */
    method MapStep(table: Frame, virt: bv64, level: nat, user: bool) returns (r: Option<MapError>, next: Frame)
      requires Valid() && 0 < level < 4 && Reached(mem, place, root, table, virt, level, user)
      requires InIdentity(virt) ==> WindowTable(root, pdpt, pd, table, level)
      modifies frames`freeFrames, frames`held, frames.bitmap, this`mem, this`place
      ensures Valid()
      ensures r.Some? ==> place == old(place)
      ensures r == Some(HugePage) ==> InIdentity(virt) && |Low()| == old(|Low()|) && |High()| == old(|High()|)
      ensures r == Some(OutOfFrames) || r == Some(Panicked) ==>
        && !InIdentity(virt) && old(|Low()|) == 0 == |Low()| && old(Missing(mem, table, virt, level)) == level
        && (r == Some(OutOfFrames) <==> old(|High()|) == 0) && |High()| == HighLeft(r, old(|High()|))
      ensures r.None? ==>
        && Reached(mem, place, root, next, virt, level - 1, user)
        && |Low()| - Missing(mem, next, virt, level - 1) == old(|Low()| - Missing(mem, table, virt, level))
        && |High()| == old(|High()|)
        && Tables(place) == old(Tables(place)) + {Path(virt)[..4 - level]}
      ensures r.None? && InIdentity(virt) ==>
        && level > 1 && WindowTable(root, pdpt, pd, next, level - 1)
        && place == old(place) && |Low()| == old(|Low()|)
    {
      hide Window, Agree, Tree, Index, InIdentity, NextTable, Reached, FreshFrames, Path, Missing, Low, High, Links, Huge,
           Present, WindowTable, FrameAllocator.Free, Tables;
      EntryMeans(table, virt, level, user);
      var entry := mem[table][Index(virt, level)];
      next := table;
      if Present(entry) {
        if level <= 2 && Huge(entry) { return Some(HugePage), table; }
        next := FollowStep(table, virt, level, user);
      } else {
        var g := ExtendStep(table, virt, level, user);
        match g {
          case Exhausted => return Some(OutOfFrames), table;
          case OutOfReach => return Some(Panicked), table;
          case Zeroed(frame) => next := frame;
        }
      }
      r := None;
    }

    /** Install the leaf in the PT reached. */
    method MapLeaf(table: Frame, virt: bv64, phys: bv64, flags: bv64, user: bool)
      requires Valid() && Reached(mem, place, root, table, virt, 0, user) && !InIdentity(virt)
      requires AddrOf(phys) == phys && GoodFlags(flags) && phys & 0xFFF == 0
      modifies this`mem, this`pages
      ensures Valid()
      ensures pages == old(pages)[Page(virt) := Mapping(phys, user, Writable(flags))]
      ensures forall v | Page(v) == Page(virt) :: PagingFormat.LeafHolds(Leaf(mem, root, v, 3), phys, flags, user)
    {
      hide Tree, Window, Agree, AddrOf, Index, LeafWord, FrameAddr, Page, InIdentity, GoodFlags, Reached, Writable,
           AlignedFrames;
      MapAligned(pages, Page(virt), Mapping(phys, user, Writable(flags)));
      hide PagingFormat.LeafHolds, Put, Leaf;
      MapValid(mem, place, root, pdpt, pd, pages, table, virt, phys, flags, user);
      MappedLeaf(table, virt, phys, flags, user);
      var index := Index(virt, 0);
      mem := mem[table := mem[table][index := LeafWord(phys, flags, user)]];
      pages := pages[Page(virt) := Mapping(phys, user, Writable(flags))];
    }

    lemma MappedLeaf(table: Frame, virt: bv64, phys: bv64, flags: bv64, user: bool)
      requires Valid() && Reached(mem, place, root, table, virt, 0, user)
      requires AddrOf(phys) == phys && GoodFlags(flags)
      ensures table in mem && |mem[table]| == TABLE_LEN
      ensures var mem' := mem[table := mem[table][Index(virt, 0) := LeafWord(phys, flags, user)]];
        forall v | Page(v) == Page(virt) :: PagingFormat.LeafHolds(Leaf(mem', root, v, 3), phys, flags, user)
    {
      hide Tree, Window, Agree, AddrOf, Index, LeafWord, Page, GoodFlags, PagingFormat.LeafHolds, Leaf, OnPath, ReachAt,
           FrameAllocator.Valid, FreshFrames, AlignedFrames;
      PagingFormat.LeafBits(phys, flags, user);
      LeafWritten(mem, place, root, table, LeafWord(phys, flags, user), virt, user, virt);
      forall v | Page(v) == Page(virt)
        ensures PagingFormat.LeafHolds(Leaf(Put(mem, table, Index(virt, 0), LeafWord(phys, flags, user)), root, v, 3), phys, flags, user)
      {
        LeafWritten(mem, place, root, table, LeafWord(phys, flags, user), virt, user, v);
      }
    }

    /** A descent that began with these missing tables, free frames and places has come to
        `table` at `level`. */
    ghost predicate Along(table: Frame, virt: bv64, level: nat, user: bool, missing: nat, low: nat, high: nat,
                          place0: Places)
      requires frames.bitmap.Length == BITMAP_WORDS && level < 4
      reads this, frames.bitmap
    {
      && Reached(mem, place, root, table, virt, level, user)
      && |Low()| - Missing(mem, table, virt, level) == low - missing && |High()| == high
      && Tables(place) == Tables(place0) + Upto(Path(virt), 3 - level)
      && (InIdentity(virt) ==>
            level > 0 && WindowTable(root, pdpt, pd, table, level) && place == place0 && |Low()| == low)
    }

    lemma Begins(virt: bv64, user: bool)
      requires Valid()
      ensures Along(root, virt, 3, user, Missing(mem, root, virt, 3), |Low()|, |High()|, place)
    {
      hide InIdentity, Reached, FreshFrames, Missing, Low, High, Tree, Window, Agree, Tables, Upto, Path;
      RootReached(mem, place, root, virt, user);
      NothingUpto(Path(virt));
      assert Tables(place) + {} == Tables(place);
    }

    /** One level further, or the end of the call with what it leaves behind. */
    method Advance(table: Frame, virt: bv64, level: nat, user: bool, ghost missing: nat, ghost low: nat,
                   ghost high: nat, ghost place0: Places)
      returns (r: Option<MapError>, next: Frame)
      requires Valid() && 0 < level < 4 && Along(table, virt, level, user, missing, low, high, place0)
      modifies frames`freeFrames, frames`held, frames.bitmap, this`mem, this`place
      ensures Valid()
      ensures r.None? ==> Along(next, virt, level - 1, user, missing, low, high, place0)
      ensures r.Some? ==> Ended(r, virt, missing, low, high, place0)
    {
      hide Index, InIdentity, NextTable, Reached, FreshFrames, Missing, Low, High, FrameAllocator.Free, FrameAddr,
           Tree, Window, Agree, Tables, Upto, Path, Outcome, LowLeft, HighLeft, DepthLeft, WindowTable;
      UptoNext(Path(virt), 3 - level);
      JoinUnion(Tables(place0), Upto(Path(virt), 3 - level), Path(virt)[..4 - level]);
      r, next := MapStep(table, virt, level, user);
      if r.Some? {
        assert r.value.HugePage? || r.value.OutOfFrames? || r.value.Panicked?;
        NothingUpto(Path(virt));
        if r.value.HugePage? {
          EndsHuge(virt, missing, low, high);
        } else {
          EndsShort(virt, missing, low, high, level, r);
        }
      }
    }

    /** How a descent from these missing tables, free frames and places has ended. */
    ghost predicate Ended(r: Option<MapError>, virt: bv64, missing: nat, low: nat, high: nat, place0: Places)
      requires frames.bitmap.Length == BITMAP_WORDS
      reads this, frames.bitmap
    {
      && r == Outcome(virt, missing, low, high)
      && |Low()| == LowLeft(r, missing, low) && |High()| == HighLeft(r, high)
      && Tables(place) == Tables(place0) + Upto(Path(virt), DepthLeft(r, missing, low))
    }

    lemma Arrives(table: Frame, virt: bv64, user: bool, missing: nat, low: nat, high: nat, place0: Places)
      requires frames.bitmap.Length == BITMAP_WORDS
      requires Along(table, virt, 0, user, missing, low, high, place0)
      ensures Ended(None, virt, missing, low, high, place0)
      ensures !InIdentity(virt) && Reached(mem, place, root, table, virt, 0, user)
    {
      hide InIdentity, Reached, Low, High, Tables, Upto, Path, Outcome, LowLeft, HighLeft, DepthLeft, WindowTable;
      Succeeds(virt, missing, low, high);
    }

    /** Descend to the PT of `virt`, creating missing tables and, for a user mapping,
        loosening existing links. None is success. */
    method Descend(virt: bv64, user: bool) returns (r: Option<MapError>, table: Frame)
      requires Valid()
      modifies frames`freeFrames, frames`held, frames.bitmap, this`mem, this`place
      ensures Valid()
      ensures Ended(r, virt, old(Missing(mem, root, virt, 3)), old(|Low()|), old(|High()|), old(place))
      ensures r.None? ==> !InIdentity(virt) && Reached(mem, place, root, table, virt, 0, user)
    {
      hide InIdentity, Reached, FreshFrames, Missing, Low, High, FrameAllocator.Free, Shaped, Agree, Along, Ended;
      ghost var missing, low, high := Missing(mem, root, virt, 3), |Low()|, |High()|;
      table := root;
      Begins(virt, user);
      for level := 4 downto 1
        invariant Valid() && Along(table, virt, level - 1, user, missing, low, high, old(place))
      {
        r, table := Advance(table, virt, level, user, missing, low, high, old(place));
        if r.Some? { return; }
      }
      Arrives(table, virt, user, missing, low, high, old(place));
      r := None;
    }

    /** Descend and install the leaf. The call succeeds exactly if the page is outside the
        window and the low free frames suffice for the tables missing on its path; the
        tables it creates stay even if it fails further down. */
    method MapInner(virt0: bv64, phys0: bv64, flags: bv64, user: bool) returns (r: Option<MapError>)
      requires Valid() && GoodPhys(phys0) && GoodFlags(flags)
      modifies frames`freeFrames, frames`held, frames.bitmap, this`mem, this`place, this`pages
      ensures Valid()
      ensures Ended(r, virt0, old(Missing(mem, root, virt0, 3)), old(|Low()|), old(|High()|), old(place))
      ensures pages == if r.Some? then old(pages) else old(pages)[Page(virt0) := Asked(phys0, flags, user)]
      ensures r.None? ==> PagingFormat.LeafHolds(Leaf(mem, root, virt0, 3), Asked(phys0, flags, user).frame, flags, user)
    {
      hide AddrOf, NextTable, InIdentity, Page, RoundDown, Index, LeafWord, GoodFlags, GoodPhys, FrameAddr, Low,
           High, Tree, Window, Agree, Reached, FreshFrames, FrameAllocator.Free, FrameAllocator.Valid, Missing, Path,
           Tables, Upto, Asked, Writable, AlignedFrames, Leaf, PagingFormat.LeafHolds;
      RoundDownPage(virt0);
      RoundDownPhys(phys0);
      AskedIs(phys0, flags, user);
      var virt := RoundDown(virt0);
      SamePageSameWindow(virt, virt0);
      SamePath(virt, virt0);
      MissingSamePath(mem, root, virt, virt0, 3);
      var table;
      r, table := Descend(virt, user);
      if r.Some? {
        assert r.value.HugePage? || r.value.OutOfFrames? || r.value.Panicked?;
        return;
      }
      MapLeaf(table, virt, RoundDown(phys0), flags, user);
    }

    method MapPage(virt: bv64, phys: bv64, flags: bv64) returns (r: Option<MapError>)
      requires Valid() && GoodPhys(phys) && GoodFlags(flags)
      modifies frames`freeFrames, frames`held, frames.bitmap, this`mem, this`place, this`pages
      ensures Valid()
      ensures Ended(r, virt, old(Missing(mem, root, virt, 3)), old(|Low()|), old(|High()|), old(place))
      ensures pages == if r.Some? then old(pages) else old(pages)[Page(virt) := Asked(phys, flags, false)]
      ensures r.None? ==> PagingFormat.LeafHolds(Leaf(mem, root, virt, 3), Asked(phys, flags, false).frame, flags, false)
    {
      r := MapInner(virt, phys, flags, false);
    }

    /** The source asserts that `virt` is not below 1 GiB. */
    method MapUserPage(virt: bv64, phys: bv64, flags: bv64) returns (r: Option<MapError>)
      requires Valid() && GoodPhys(phys) && GoodFlags(flags) && virt >= 0x4000_0000
      modifies frames`freeFrames, frames`held, frames.bitmap, this`mem, this`place, this`pages
      ensures Valid()
      ensures Ended(r, virt, old(Missing(mem, root, virt, 3)), old(|Low()|), old(|High()|), old(place))
      ensures pages == if r.Some? then old(pages) else old(pages)[Page(virt) := Asked(phys, flags, true)]
      ensures r.None? ==> PagingFormat.LeafHolds(Leaf(mem, root, virt, 3), Asked(phys, flags, true).frame, flags, true)
    {
      r := MapInner(virt, phys, flags, true);
    }

    /** A frame allocated by anyone else, as the heap does for its pages: the tables do not
        notice. */
    method TakeOther() returns (ok: bool)
      requires Valid()
      modifies frames`freeFrames, frames`held, frames.bitmap
      ensures Valid()
      ensures ok <==> old(|Low()|) + old(|High()|) > 0
      ensures |Low()| == SaturatingSub(old(|Low()|), 1)
      ensures |High()| == if old(|Low()|) == 0 then SaturatingSub(old(|High()|), 1) else old(|High()|)
    {
      hide FrameAddr, FrameAllocator.Free, Low, High, Shaped, Agree;
      var index := frames.Alloc();
      CountFrames(old(frames.Free()), index);
      LowIs();
      ok := index.Some?;
    }

    /** Clears the leaf and reports whether there was one; upper tables stay. */
    method UnmapPage(virt0: bv64) returns (ok: bool)
      requires Valid()
      modifies this`mem, this`pages
      ensures Valid()
      ensures ok <==> Page(virt0) in old(pages)
      ensures pages == old(pages) - {Page(virt0)}
    {
      RoundDownPage(virt0);
      hide RoundDown, Page, Valid;
      var table;
      ok, table := FindPt(RoundDown(virt0));
      if ok { ok := UnmapLeaf(table, RoundDown(virt0)); }
    }

    /** The descent of `unmap_page`; false if it meets an absent entry or a large page. */
    method FindPt(virt: bv64) returns (ok: bool, table: Frame)
      requires Valid()
      ensures !ok ==> Page(virt) !in pages
      ensures ok ==> Reached(mem, place, root, table, virt, 0, false) && !InIdentity(virt)
    {
      table := root;
      RootReached(mem, place, root, virt, false);
      assert AgreeAt(mem, root, pages, virt);
      hide Present, User, Huge, AddrOf, NextTable, InIdentity, Page, Index, FrameAddr, Valid, FrameAllocator.Valid;
      hide Tree, Window, Agree, Reached, Walk, LeafUser, UserWalk, FreshFrames;
      for level := 4 downto 1
        invariant Reached(mem, place, root, table, virt, level - 1, false)
        invariant InIdentity(virt) ==> level > 1 && WindowTable(root, pdpt, pd, table, level - 1)
      {
        ok, table := UnmapStep(table, virt, level);
        if !ok { return; }
      }
      ok := true;
    }

    method UnmapStep(table: Frame, virt: bv64, level: nat) returns (ok: bool, next: Frame)
      requires Shaped() && 0 < level < 4 && Reached(mem, place, root, table, virt, level, false)
      requires InIdentity(virt) ==> WindowTable(root, pdpt, pd, table, level)
      ensures !ok ==> InIdentity(virt) || Walk(mem, root, virt, 3).None?
      ensures ok ==> Reached(mem, place, root, next, virt, level - 1, false)
      ensures ok && InIdentity(virt) ==> level > 1 && WindowTable(root, pdpt, pd, next, level - 1)
    {
      var entry := ReadEntry(table, Index(virt, level));
      ReachedWalk(mem, place, root, table, virt, level);
      if InIdentity(virt) { WindowStep(mem, place, root, pdpt, pd, table, virt, level); }
      if !Present(entry) || Huge(entry) {
        if Present(entry) {
          HugeMeansWindow(mem, place, root, table, virt, level);
        } else {
          hide Present, Huge, User, Index, InIdentity;
          AbsentEntry(mem, table, virt, level);
        }
        return false, table;
      }
      hide Present, User, Huge, Tree, Window, Index, InIdentity, NextTable, OnPath, ReachAt, Walk;
      FollowLink(mem, place, root, table, virt, level, false);
      ok, next := true, NextTable(entry);
    }

    method UnmapLeaf(table: Frame, virt: bv64) returns (ok: bool)
      requires Valid() && Reached(mem, place, root, table, virt, 0, false) && !InIdentity(virt)
      modifies this`mem, this`pages
      ensures Valid()
      ensures ok <==> Page(virt) in old(pages)
      ensures pages == old(pages) - {Page(virt)}
    {
      hide Tree, Window, Agree, AddrOf, Index, FrameAddr, Page, InIdentity, Present, Reached;
      UnmapAligned(pages, Page(virt));
      UnmapValid(mem, place, root, pdpt, pd, pages, table, virt);
      var index := Index(virt, 0);
      if !Present(mem[table][index]) { return false; }
      mem := mem[table := mem[table][index := 0]];
      pages := pages - {Page(virt)};
      ok := true;
    }

    /** `translate`: what the tables give is what the abstract map says. Below 1 GiB that
        is the address itself; a mapped page keeps offsets and gives its own frame. */
    method Translate(virt: bv64) returns (r: Option<bv64>)
      requires Valid()
      ensures r == Translation(pages, virt)
      ensures virt < 0x4000_0000 ==> r == Some(virt)
      ensures Page(virt) in pages ==> r.Some? && PagingFormat.InFrame(r.value, pages[Page(virt)].frame, virt)
    {
      hide *;
      r := WalkTables(virt);
      TranslationIs(virt);
    }

    /** The abstract map in figures. */
    lemma TranslationIs(virt: bv64)
      requires Valid()
      ensures virt < 0x4000_0000 ==> Translation(pages, virt) == Some(virt)
      ensures Page(virt) in pages ==>
        var r := Translation(pages, virt);
        r.Some? && PagingFormat.InFrame(r.value, pages[Page(virt)].frame, virt)
    {
      assert AgreeAt(mem, root, pages, virt);
      hide Page, InIdentity, WindowAddr, PageAddr, Shaped, FreshFrames, FrameAllocator.Valid, PagingFormat.InFrame,
           Walk, UserWalk, WriteWalk, LeafUser;
      PagingFormat.BelowWindowEnd(virt);
      if Page(virt) in pages { PagingFormat.OffsetKept(pages[Page(virt)].frame, virt); }
    }

    method WalkTables(virt: bv64) returns (r: Option<bv64>)
      requires Valid()
      ensures r == Translation(pages, virt)
    {
      assert AgreeAt(mem, root, pages, virt);
      var table := root;
      RootReached(mem, place, root, virt, false);
      hide Present, User, Huge, AddrOf, NextTable, InIdentity, Page, Index, FrameAddr, Tree, Window, Agree, LeafUser,
           UserWalk, OnPath, ReachAt, PageAddr, WindowAddr, Target;
      for level := 4 downto 1
        invariant Reached(mem, place, root, table, virt, level - 1, false)
        invariant Walk(mem, root, virt, 3) == Walk(mem, table, virt, level - 1)
      {
        assert table in place;
        var entry := ReadEntry(table, Index(virt, level));
        if !Present(entry) { return None; }
        if level <= 2 && Huge(entry) { return Some(Target(entry, virt, level)); }
        FollowLink(mem, place, root, table, virt, level, false);
        table := NextTable(entry);
      }
      assert table in place;
      var entry := ReadEntry(table, Index(virt, 0));
      if !Present(entry) { return None; }
      r := Some(Target(entry, virt, 0));
    }

    /** Present and user at every level: exactly the pages last mapped for the user. */
    method PageUserAccessible(virt: bv64) returns (r: bool)
      requires Valid()
      ensures r == UserPage(pages, virt)
    {
      assert AgreeAt(mem, root, pages, virt);
      UserWalkLeaf(mem, root, virt, 3);
      var table := root;
      RootReached(mem, place, root, virt, false);
      hide Present, User, Huge, AddrOf, NextTable, InIdentity, Page, Index, FrameAddr, Tree, Window, Agree, LeafUser,
           Walk, OnPath, ReachAt;
      for level := 4 downto 1
        invariant Reached(mem, place, root, table, virt, level - 1, false)
        invariant UserWalk(mem, root, virt, 3) == UserWalk(mem, table, virt, level - 1)
      {
        assert table in place;
        var entry := ReadEntry(table, Index(virt, level));
        if !Present(entry) || !User(entry) { return false; }
        if level <= 2 && Huge(entry) { return true; }
        FollowLink(mem, place, root, table, virt, level, false);
        table := NextTable(entry);
      }
      assert table in place;
      var entry := ReadEntry(table, Index(virt, 0));
      r := Present(entry) && User(entry);
    }

    /** `user_range_ok`: a page walk for every page that [uaddr, uaddr + len) touches. */
    method UserRangeOk(uaddr: nat, len: nat) returns (ok: bool)
      requires Valid() && uaddr < U64 && len < U64
      ensures ok <==> len == 0 || (uaddr + len <= 0x8000_0000_0000 && AllUser(pages, uaddr, uaddr + len))
    {
      hide UserByte, UserPage, Word, Valid, Aligned, PageStart;
      if len == 0 { return true; }
      var end := uaddr + len;
      if end >= U64 { return false; }
      if end > USER_ADDR_LIMIT { return false; }
      var last := PageStart(end - 1);
      var page := PageStart(uaddr);
      PageStartFacts(end - 1);
      PageStartFacts(uaddr);
      if page > last { NextPage(last, page); }
      while true
        invariant Aligned(page) && PageStart(uaddr) <= page <= last
        invariant AllUser(pages, uaddr, page)
        decreases last - page
      {
        var accessible := PageUserAccessible(Word(page));
        PageDecides(pages, page);
        if !accessible {
          assert !UserByte(pages, Max(uaddr, page));
          return false;
        }
        if page == last { return true; }
        NextPage(page, last);
        page := page + FRAME_SIZE;
      }
    }
  }
}
