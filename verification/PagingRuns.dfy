/** Whole runs of mapping calls: whatever was called, in whatever order, and whichever of
    the calls failed, the tables translate, and grant user access, by the last
    successful call on each page. */
module PagingRuns {
  import opened Common
  import opened Frames
  import opened PageWalk
  import opened PageTree
  import opened Paging
  import opened AddressSpace
  import opened PagingFormat

  datatype Call =
    | Map(virt: bv64, phys: bv64, flags: bv64)
    | MapUser(virt: bv64, phys: bv64, flags: bv64)
    | Unmap(virt: bv64)
    | Take          // a frame allocated for something else

  /** What the source asks of its callers. */
  predicate Allowed(call: Call) {
    match call
    case Map(virt, phys, flags) => GoodPhys(phys) && GoodFlags(flags)
    case MapUser(virt, phys, flags) => GoodPhys(phys) && GoodFlags(flags) && virt >= 0x4000_0000
    case Unmap(_) => true
    case Take => true
  }

  predicate Maps(call: Call) { call.Map? || call.MapUser? }

  /** The page that a call is about. */
  predicate About(call: Call, page: VPage) { !call.Take? && Page(call.virt) == page }

  /** What a successful call makes of its page. */
  function Effect(call: Call): Option<Mapping> {
    match call
    case Map(_, phys, flags) => Some(Asked(phys, flags, false))
    case MapUser(_, phys, flags) => Some(Asked(phys, flags, true))
    case Unmap(_) => None
    case Take => None
  }

  // ---- Calls on an abstract address space -----------------------------------------------------

  /** The pages mapped, the places with a table, and the numbers of free frames below
      1 GiB and from there on. */
  datatype SpaceState = SpaceState(pages: Pages, tables: set<seq<nat>>, low: nat, high: nat)

  ghost function Abs(space: AddressSpace): SpaceState
    requires space.frames.bitmap.Length == BITMAP_WORDS
    reads space, space.frames.bitmap
  {
    SpaceState(space.pages, Tables(space.place), |space.Low()|, |space.High()|)
  }

  /** The outcome of a mapping call. */
  ghost function MapOutcome(s: SpaceState, virt: bv64): Option<MapError> {
    Outcome(virt, Need(s.tables, Path(virt), 3), s.low, s.high)
  }

  /** The state after a call, and whether it succeeds. A failing mapping call leaves the
      pages alone, but not the tables it has created on the way. */
  ghost function Performed(s: SpaceState, call: Call): (SpaceState, bool) {
    if call.Unmap? then (s.(pages := s.pages - {Page(call.virt)}), Page(call.virt) in s.pages)
    else if call.Take? then
      (s.(low := SaturatingSub(s.low, 1), high := if s.low == 0 then SaturatingSub(s.high, 1) else s.high), s.low + s.high > 0)
    else
      var r, need := MapOutcome(s, call.virt), Need(s.tables, Path(call.virt), 3);
      (SpaceState(if r.None? then s.pages[Page(call.virt) := Effect(call).value] else s.pages,
                  s.tables + Upto(Path(call.virt), DepthLeft(r, need, s.low)), LowLeft(r, need, s.low), HighLeft(r, s.high)),
       r.None?)
  }

  ghost function Replayed(s: SpaceState, calls: seq<Call>): (r: (SpaceState, seq<bool>))
    ensures |r.1| == |calls|
  {
    if calls == [] then (s, [])
    else
      var before := Replayed(s, calls[..|calls| - 1]);
      var (after, ok) := Performed(before.0, calls[|calls| - 1]);
      (after, before.1 + [ok])
  }

  // ---- What the abstract run amounts to ---------------------------------------------------------

  /** The effect of the last successful call on a page; before any, it is not mapped. */
  ghost function Last(calls: seq<Call>, succeeded: seq<bool>, page: VPage): Option<Mapping>
    requires |calls| == |succeeded|
  {
    if calls == [] then None
    else
      var k := |calls| - 1;
      if succeeded[k] && About(calls[k], page) then Effect(calls[k])
      else Last(calls[..k], succeeded[..k], page)
  }

  /** The pages are what the last successful call on each has made of it. */
  lemma {:induction false} PagesAreLast(s: SpaceState, calls: seq<Call>, page: VPage)
    requires s.pages == map[]
    ensures var (t, ok) := Replayed(s, calls);
      Last(calls, ok, page) == if page in t.pages then Some(t.pages[page]) else None
    decreases |calls|
  {
    hide Page, Asked, MapOutcome, Need, Upto, Path;
    if calls != [] {
      var k := |calls| - 1;
      var (t, ok) := Replayed(s, calls[..k]);
      PagesAreLast(s, calls[..k], page);
      var (_, all) := Replayed(s, calls);
      assert all[..k] == ok;
    }
  }

  /** An unmap succeeds exactly if the page was mapped. */
  lemma UnmapFinds(s: SpaceState, calls: seq<Call>, k: nat)
    requires s.pages == map[] && k < |calls| && calls[k].Unmap?
    ensures var ok := Replayed(s, calls).1;
      ok[k] <==> Last(calls[..k], ok[..k], Page(calls[k].virt)).Some?
  {
    hide Page;
    ReplayedPrefix(s, calls, k + 1);
    assert calls[..k + 1][..k] == calls[..k];
    var ok := Replayed(s, calls).1;
    assert ok[..k] == ok[..k + 1][..k];
    PagesAreLast(s, calls[..k], Page(calls[k].virt));
  }

  lemma {:induction false} ReplayedPrefix(s: SpaceState, calls: seq<Call>, k: nat)
    requires k <= |calls|
    ensures Replayed(s, calls[..k]).1 == Replayed(s, calls).1[..k]
    decreases |calls|
  {
    hide Performed;
    if k == |calls| {
      assert calls[..k] == calls;
    } else {
      ReplayedPrefix(s, calls[..|calls| - 1], k);
      assert calls[..|calls| - 1][..k] == calls[..k];
    }
  }

  /** With three low frames for every call, all mappings outside the window succeed. */
  lemma {:induction false} FramesSuffice(s: SpaceState, calls: seq<Call>, k: nat)
    requires k < |calls| && s.low >= 3 * |calls| && Maps(calls[k])
    ensures Replayed(s, calls).1[k] <==> !InIdentity(calls[k].virt)
    decreases |calls|
  {
    hide InIdentity, Page, Upto, Path, Need, Asked;
    var n := |calls| - 1;
    LowAfter(s, calls[..n]);
    if k < n { FramesSuffice(s, calls[..n], k); }
  }

  lemma {:induction false} LowAfter(s: SpaceState, calls: seq<Call>)
    requires s.low >= 3 * |calls|
    ensures Replayed(s, calls).0.low >= s.low - 3 * |calls|
    decreases |calls|
  {
    hide InIdentity, Page, Upto, Path, Need, Asked;
    if calls != [] { LowAfter(s, calls[..|calls| - 1]); }
  }

  // ---- The tables' run -----------------------------------------------------------------------------

  /** One call of any kind does to the tables what it does to the abstract space. */
  method Perform(space: AddressSpace, call: Call) returns (ok: bool)
    requires space.Valid() && Allowed(call)
    modifies space, space.frames, space.frames.bitmap
    ensures space.Valid()
    ensures (Abs(space), ok) == Performed(old(Abs(space)), call)
  {
    hide Page, Asked, InIdentity, GoodPhys, GoodFlags, Tree, Agree, Missing, Need, AddressSpace.Low,
         AddressSpace.High, Tables, Upto, Path;
    match call
    case Map(virt, phys, flags) =>
      CallNeeds(space, virt);
      var e := space.MapPage(virt, phys, flags);
      ok := e.None?;
    case MapUser(virt, phys, flags) =>
      CallNeeds(space, virt);
      var e := space.MapUserPage(virt, phys, flags);
      ok := e.None?;
    case Unmap(virt) =>
      ok := space.UnmapPage(virt);
    case Take =>
      ok := space.TakeOther();
  }

  lemma CallNeeds(space: AddressSpace, virt: bv64)
    requires space.Valid()
    ensures !InIdentity(virt) ==> Missing(space.mem, space.root, virt, 3) == Need(Tables(space.place), Path(virt), 3)
  {
    hide InIdentity, Path, Tree, Agree, Missing, Need;
    RootReached(space.mem, space.place, space.root, virt, false);
    if !InIdentity(virt) {
      MissingIsNeed(space.mem, space.place, space.root, space.root, virt, 3);
    }
  }

  /** At this address the processor, and `translate` with it, sees the last successful call
      on the page: below 1 GiB the identity map for the kernel alone, elsewhere exactly the
      pages mapped, at their frames, for the user iff the call was `map_user_page`, and
      writable iff its flags said so. */
  ghost predicate Refined(mem: Memory, root: Frame, calls: seq<Call>, succeeded: seq<bool>, virt: bv64)
    requires |calls| == |succeeded|
  {
    var last, access := Last(calls, succeeded, Page(virt)), Mmu(mem, root.addr, virt);
    && Walk(mem, root, virt, 3) == (if access.Fault? then None else Some(access.phys))
    && (virt < 0x4000_0000 ==> access == Access(virt, false, true))
    && (InIdentity(virt) ==> access == Access(WindowAddr(virt), false, true))
    && (!InIdentity(virt) && last.None? ==> access.Fault?)
    && (!InIdentity(virt) && last.Some? ==>
          && access.Access? && access.user == last.value.user && access.write == last.value.writable
          && InFrame(access.phys, last.value.frame, virt))
  }

  /** Any run of calls, failing ones included, from a space without mapped pages: every
      outcome, and the final state, are those of the abstract run. */
  method Run(space: AddressSpace, calls: seq<Call>) returns (succeeded: seq<bool>)
    requires space.Valid() && space.pages == map[] && forall c | c in calls :: Allowed(c)
    modifies space, space.frames, space.frames.bitmap
    ensures space.Valid() && (Abs(space), succeeded) == Replayed(old(Abs(space)), calls)
    ensures forall virt: bv64 :: Refined(space.mem, space.root, calls, succeeded, virt)
  {
    hide Page, InIdentity, Walk, UserWalk, WriteWalk, LeafUser, Last, Abs, Refined, Replayed, Tree, Window, AgreeAt, AlignedFrames;
    ghost var start := Abs(space);
    AbsPages(space);
    succeeded := Replay(space, calls);
    AbsPages(space);
    forall virt: bv64
      ensures Refined(space.mem, space.root, calls, succeeded, virt)
    {
      PagesAreLast(start, calls, Page(virt));
      RunRefines(space.mem, space.root, space.pages, calls, succeeded, virt);
    }
  }

  lemma AbsPages(space: AddressSpace)
    requires space.frames.bitmap.Length == BITMAP_WORDS
    ensures Abs(space).pages == space.pages
  {
  }

  method Replay(space: AddressSpace, calls: seq<Call>) returns (succeeded: seq<bool>)
    requires space.Valid() && forall c | c in calls :: Allowed(c)
    modifies space, space.frames, space.frames.bitmap
    ensures space.Valid() && (Abs(space), succeeded) == Replayed(old(Abs(space)), calls)
  {
    hide Abs, Performed, Allowed;
    succeeded := [];
    assert calls[..0] == [];
    for k := 0 to |calls|
      invariant space.Valid() && (Abs(space), succeeded) == Replayed(old(Abs(space)), calls[..k])
    {
      assert calls[k] in calls;
      assert calls[..k + 1][..k] == calls[..k];
      var ok := Perform(space, calls[k]);
      succeeded := succeeded + [ok];
    }
    assert calls[..|calls|] == calls;
  }

  /** The abstract map is all that the processor sees. */
  lemma SeesPages(mem: Memory, root: Frame, pages: Pages, virt: bv64)
    requires AgreeAt(mem, root, pages, virt)
    ensures var access := Mmu(mem, root.addr, virt);
      && Walk(mem, root, virt, 3) == (if access.Fault? then None else Some(access.phys))
      && access == if InIdentity(virt) then Access(WindowAddr(virt), false, true)
                   else if Page(virt) in pages then
                     var m := pages[Page(virt)]; Access(PageAddr(m.frame, virt), m.user, m.writable)
                   else Fault
  {
    hide Page, InIdentity, Walk, UserWalk, WriteWalk, LeafUser, PageAddr, WindowAddr, Mmu;
    UserWalkLeaf(mem, root, virt, 3);
    WalksAreTheProcessors(mem, root.addr, virt);
  }

  lemma RunRefines(mem: Memory, root: Frame, pages: Pages, calls: seq<Call>, succeeded: seq<bool>, virt: bv64)
    requires AgreeAt(mem, root, pages, virt) && AlignedFrames(pages) && |calls| == |succeeded|
    requires Last(calls, succeeded, Page(virt)) == if Page(virt) in pages then Some(pages[Page(virt)]) else None
    ensures Refined(mem, root, calls, succeeded, virt)
  {
    hide Page, InIdentity, Walk, UserWalk, WriteWalk, LeafUser, PageAddr, WindowAddr, Last, Mmu, AgreeAt, InFrame;
    SeesPages(mem, root, pages, virt);
    BelowWindowEnd(virt);
    if Page(virt) in pages { OffsetKept(pages[Page(virt)].frame, virt); }
  }
}
