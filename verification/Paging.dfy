/** The address space of src/paging.rs: page tables built and changed in place, refining
    an abstract map from page to frame, user and writable flag. */
module Paging {
  import opened Common
  import opened PageWalk
  import opened PageTree

  /** The source's two errors. `Panicked` stands for its assertion, not an error return,
      that a table's frame lies below 1 GiB. */
  datatype MapError = OutOfFrames | HugePage | Panicked

  datatype Mapping = Mapping(frame: bv64, user: bool, writable: bool)

  type Pages = map<VPage, Mapping>

  // ---- The abstract address space -------------------------------------------------------

  /** The identity map below 1 GiB plus the pages mapped. */
  function Translation(pages: Pages, virt: bv64): Option<bv64> {
    if InIdentity(virt) then Some(WindowAddr(virt))
    else if Page(virt) in pages then Some(PageAddr(pages[Page(virt)].frame, virt))
    else None
  }

  predicate UserPage(pages: Pages, virt: bv64) { Page(virt) in pages && pages[Page(virt)].user }

  /** The identity window is writable. */
  predicate WritePage(pages: Pages, virt: bv64) {
    InIdentity(virt) || (Page(virt) in pages && pages[Page(virt)].writable)
  }

  /** Frames are mapped from their first byte. */
  ghost predicate AlignedFrames(pages: Pages) { forall p | p in pages :: pages[p].frame & 0xFFF == 0 }

  /** The tables and the abstract map agree at `virt`. */
  ghost predicate AgreeAt(mem: Memory, root: Frame, pages: Pages, virt: bv64) {
    && Walk(mem, root, virt, 3) == Translation(pages, virt)
    && LeafUser(mem, root, virt, 3) == UserPage(pages, virt)
    && (LeafUser(mem, root, virt, 3) ==> UserWalk(mem, root, virt, 3))
    && WriteWalk(mem, root, virt, 3) == WritePage(pages, virt)
    && (InIdentity(virt) ==> Page(virt) !in pages)
  }

  ghost predicate Agree(mem: Memory, root: Frame, pages: Pages) {
    forall virt: bv64 :: AgreeAt(mem, root, pages, virt)
  }

  // ---- The three kinds of write keep or change the agreement ----------------------------

  lemma LoosenAgrees(mem: Memory, place: Places, root: Frame, pages: Pages, f: Frame, i: nat)
    requires Tree(mem, place, root) && f in place && i < TABLE_LEN && Links(mem, place, f, i)
    requires Agree(mem, root, pages)
    ensures Agree(Put(mem, f, i, Loosened(mem[f][i])), root, pages)
  {
    hide AllLinked;
    var mem' := Put(mem, f, i, Loosened(mem[f][i]));
    hide Tree, Links, Put, Loosened, Walk, LeafUser, UserWalk, WriteWalk, Translation, UserPage, WritePage, InIdentity, Page;
    forall virt: bv64 ensures AgreeAt(mem', root, pages, virt) {
      assert AgreeAt(mem, root, pages, virt);
      RootOnPath(mem, place, root, virt);
      LoosenKeeps(mem, place, root, f, i, root, virt, 3);
    }
  }

  lemma RootOnPath(mem: Memory, place: Places, root: Frame, virt: bv64)
    requires Tree(mem, place, root)
    ensures OnPath(place, root, virt, 3)
  {
    hide AllLinked;
    assert Path(virt)[..0] == [];
  }

  lemma AttachAgrees(mem: Memory, place: Places, root: Frame, pages: Pages, f: Frame, i: nat, g: Frame, w: bv64)
    requires Tree(mem, place, root) && f in place && i < TABLE_LEN && |place[f]| < 3
    requires g !in place && !Present(mem[f][i]) && Present(w) && !Huge(w) && NextTable(w) == g
    requires Agree(mem, root, pages)
    ensures Agree(Attach(mem, f, i, g, w), root, pages)
  {
    hide AllLinked;
    var mem' := Attach(mem, f, i, g, w);
    hide Tree, Attach, Walk, LeafUser, UserWalk, WriteWalk, Translation, UserPage, WritePage, InIdentity, Page, Present, Huge, NextTable;
    forall virt: bv64 ensures AgreeAt(mem', root, pages, virt) {
      assert AgreeAt(mem, root, pages, virt);
      RootOnPath(mem, place, root, virt);
      AttachKeeps(mem, place, root, f, i, g, w, root, virt, 3);
    }
  }

  /** Everything that holds of a PT entry just written: every walk of its page ends there. */
  lemma LeafHit(mem: Memory, place: Places, root: Frame, f: Frame, w: bv64, virt: bv64, user: bool, v: bv64)
    requires Tree(mem, place, root) && OnPath(place, f, virt, 0)
    requires ReachAt(mem, root, virt, 3, 0, user) == Some(f) && Page(v) == Page(virt)
    ensures var mem' := Put(mem, f, Index(virt, 0), w);
      && Walk(mem', root, v, 3) == (if Present(w) then Some(Target(w, v, 0)) else None)
      && LeafUser(mem', root, v, 3) == (Present(w) && User(w))
      && (user ==> UserWalk(mem', root, v, 3) == (Present(w) && User(w)))
      && WriteWalk(mem', root, v, 3) == (Present(w) && Writable(w))
  {
    hide AllLinked;
    var mem' := Put(mem, f, Index(virt, 0), w);
    SamePath(v, virt);
    RootOnPath(mem, place, root, v);
    LeafReached(mem, place, root, f, w, virt, user, v);
    assert Index(v, 0) == Path(v)[3] == Path(virt)[3] == Index(virt, 0);
    LeafTree(mem, place, root, f, Index(virt, 0), w);
    hide Page, Path, Index, Tree, OnPath, Writable, Present, User, Target, Huge, NextTable;
    ReachWalk(mem', root, v, 3, 0, user);
    ReachWrites(mem', place, root, root, v, 3, user);
    assert EntryOf(mem', f, Index(v, 0)) == w;
  }

  lemma LeafReached(mem: Memory, place: Places, root: Frame, f: Frame, w: bv64, virt: bv64, user: bool, v: bv64)
    requires Tree(mem, place, root) && OnPath(place, f, virt, 0) && OnPath(place, root, v, 3)
    requires ReachAt(mem, root, virt, 3, 0, user) == Some(f) && Path(v) == Path(virt)
    ensures ReachAt(Put(mem, f, Index(virt, 0), w), root, v, 3, 0, user) == Some(f)
  {
    hide AllLinked;
    var mem' := Put(mem, f, Index(virt, 0), w);
    assert |place[f]| == 3;
    hide Index, ReachAt, Path;
    ReachSamePath(mem, root, v, virt, 3, 0, user);
    ReachFrame(mem, mem', place, root, root, v, 3, 0, user);
  }

  /** The word written is the leaf that a walk of the page comes to. */
  lemma LeafWritten(mem: Memory, place: Places, root: Frame, f: Frame, w: bv64, virt: bv64, user: bool, v: bv64)
    requires Tree(mem, place, root) && OnPath(place, f, virt, 0)
    requires ReachAt(mem, root, virt, 3, 0, user) == Some(f) && Page(v) == Page(virt)
    ensures f in mem && |mem[f]| == TABLE_LEN
    ensures Leaf(Put(mem, f, Index(virt, 0), w), root, v, 3) == w
  {
    hide AllLinked;
    var mem' := Put(mem, f, Index(virt, 0), w);
    SamePath(v, virt);
    RootOnPath(mem, place, root, virt);
    LeafReached(mem, place, root, f, w, virt, user, virt);
    hide Page, Path, Index, Tree, OnPath, Present, User, Huge, NextTable;
    ReachLeaf(mem', root, virt, v, 3, user);
    assert EntryOf(mem', f, Index(virt, 0)) == w;
  }

  lemma LeafMiss(mem: Memory, place: Places, root: Frame, f: Frame, w: bv64, virt: bv64, v: bv64)
    requires Tree(mem, place, root) && OnPath(place, f, virt, 0) && Page(v) != Page(virt)
    ensures var mem' := Put(mem, f, Index(virt, 0), w);
      && Walk(mem', root, v, 3) == Walk(mem, root, v, 3)
      && LeafUser(mem', root, v, 3) == LeafUser(mem, root, v, 3)
      && UserWalk(mem', root, v, 3) == UserWalk(mem, root, v, 3)
      && WriteWalk(mem', root, v, 3) == WriteWalk(mem, root, v, 3)
  {
    hide AllLinked;
    SamePath(v, virt);
    RootOnPath(mem, place, root, v);
    assert Path(virt) == Path(virt)[..3] + [Path(virt)[3]];
    assert Path(virt) == place[f] + [Index(virt, 0)];
    hide Page, Path, Index, Walk, LeafUser, UserWalk, WriteWalk, Tree;
    LeafElsewhere(mem, place, root, f, Index(virt, 0), w, root, v, 3);
  }

  lemma WindowOfPage(v: bv64)
    ensures InIdentity(v) == InIdentity(Page(v).bits)
  {
  }

  /** A page never leaves the identity window by its offset. */
  lemma SamePageSameWindow(v: bv64, w: bv64)
    requires Page(v) == Page(w)
    ensures InIdentity(v) == InIdentity(w)
  {
    hide InIdentity, Page;
    WindowOfPage(v);
    WindowOfPage(w);
  }

  lemma MapAgrees(mem: Memory, place: Places, root: Frame, pages: Pages, f: Frame, virt: bv64, phys: bv64,
          flags: bv64, user: bool)
    requires Tree(mem, place, root) && OnPath(place, f, virt, 0) && ReachAt(mem, root, virt, 3, 0, user) == Some(f)
    requires Agree(mem, root, pages) && !InIdentity(virt)
    requires AddrOf(phys) == phys && GoodFlags(flags)
    ensures f in mem && |mem[f]| == TABLE_LEN
    ensures Agree(Put(mem, f, Index(virt, 0), LeafWord(phys, flags, user)), root,
                  pages[Page(virt) := Mapping(phys, user, Writable(flags))])
  {
    hide ReachAt, InIdentity, Page, Index, Tree, OnPath, Put, AgreeAt, LeafWord, Writable, AddrOf, GoodFlags;
    PathTable(mem, place, root, f, virt);
    var mem' := Put(mem, f, Index(virt, 0), LeafWord(phys, flags, user));
    var pages' := pages[Page(virt) := Mapping(phys, user, Writable(flags))];
    forall v: bv64 ensures AgreeAt(mem', root, pages', v) {
      assert AgreeAt(mem, root, pages, v);
      MapAgreesAt(mem, place, root, pages, f, virt, phys, flags, user, v);
    }
  }

  lemma MapAgreesAt(mem: Memory, place: Places, root: Frame, pages: Pages, f: Frame, virt: bv64, phys: bv64,
          flags: bv64, user: bool, v: bv64)
    requires Tree(mem, place, root) && OnPath(place, f, virt, 0) && ReachAt(mem, root, virt, 3, 0, user) == Some(f)
    requires AgreeAt(mem, root, pages, v) && !InIdentity(virt)
    requires AddrOf(phys) == phys && GoodFlags(flags)
    ensures f in mem && |mem[f]| == TABLE_LEN
    ensures AgreeAt(Put(mem, f, Index(virt, 0), LeafWord(phys, flags, user)), root,
                    pages[Page(virt) := Mapping(phys, user, Writable(flags))], v)
  {
    hide ReachAt, Walk, LeafUser, UserWalk, WriteWalk, LeafWord, Writable, Present, User, Target, InIdentity, Page, Path,
         Index, Tree, OnPath, AddrOf, GoodFlags, Put, PageAddr, WindowAddr;
    PathTable(mem, place, root, f, virt);
    if Page(v) == Page(virt) {
      SamePageSameWindow(v, virt);
      LeafHit(mem, place, root, f, LeafWord(phys, flags, user), virt, user, v);
      LeafWordReads(phys, flags, user, v);
      LeafWordWritable(phys, flags, user);
    } else {
      LeafMiss(mem, place, root, f, LeafWord(phys, flags, user), virt, v);
    }
  }

  lemma UnmapAgrees(mem: Memory, place: Places, root: Frame, pages: Pages, f: Frame, virt: bv64)
    requires Tree(mem, place, root) && OnPath(place, f, virt, 0) && ReachAt(mem, root, virt, 3, 0, false) == Some(f)
    requires Agree(mem, root, pages) && !InIdentity(virt)
    ensures Agree(Put(mem, f, Index(virt, 0), 0), root, pages - {Page(virt)})
  {
    hide ReachAt, InIdentity, Page, Index, Tree, OnPath, Put, AgreeAt;
    PathTable(mem, place, root, f, virt);
    forall v: bv64 ensures AgreeAt(Put(mem, f, Index(virt, 0), 0), root, pages - {Page(virt)}, v) {
      assert AgreeAt(mem, root, pages, v);
      UnmapAgreesAt(mem, place, root, pages, f, virt, v);
    }
  }

  lemma PathTable(mem: Memory, place: Places, root: Frame, f: Frame, virt: bv64)
    requires Tree(mem, place, root) && OnPath(place, f, virt, 0)
    ensures f in mem && |mem[f]| == TABLE_LEN
  {
    hide AllLinked;
  }

  lemma UnmapAgreesAt(mem: Memory, place: Places, root: Frame, pages: Pages, f: Frame, virt: bv64, v: bv64)
    requires Tree(mem, place, root) && OnPath(place, f, virt, 0) && ReachAt(mem, root, virt, 3, 0, false) == Some(f)
    requires AgreeAt(mem, root, pages, v) && !InIdentity(virt)
    ensures AgreeAt(Put(mem, f, Index(virt, 0), 0), root, pages - {Page(virt)}, v)
  {
    hide AllLinked;
    ZeroAbsent();
    hide ReachAt, Walk, LeafUser, UserWalk, WriteWalk, Present, User, Target, InIdentity, Page, Path, Index, Tree, OnPath, Put,
         PageAddr, WindowAddr;
    if Page(v) == Page(virt) {
      SamePageSameWindow(v, virt);
      LeafHit(mem, place, root, f, 0, virt, false, v);
    } else {
      LeafMiss(mem, place, root, f, 0, virt, v);
    }
  }

  // ---- The initial tables ------------------------------------------------------------------

  /** What `build_address_space` leaves: three tables, the PD full of 2 MiB pages. */
  ghost predicate Built(mem: Memory, root: Frame, pdpt: Frame, pd: Frame) {
    && root != pdpt && root != pd && pdpt != pd
    && (forall f :: f in mem <==> f == root || f == pdpt || f == pd)
    && (forall f | f in mem :: |mem[f]| == TABLE_LEN && f.addr < IDENTITY_LIMIT && AddrOf(f.addr) == f.addr)
    && mem[root] == ZeroTable()[0 := LinkTo(pdpt, false)]
    && mem[pdpt] == ZeroTable()[0 := LinkTo(pd, false)]
    && (forall i | 0 <= i < TABLE_LEN :: mem[pd][i] == IdentityEntry(i))
  }

  ghost function BuiltPlaces(root: Frame, pdpt: Frame, pd: Frame): Places {
    map[root := [], pdpt := [0], pd := [0, 0]]
  }

  lemma BuiltEntry(mem: Memory, root: Frame, pdpt: Frame, pd: Frame, f: Frame, i: nat)
    requires Built(mem, root, pdpt, pd) && f in mem && i < TABLE_LEN
    ensures mem[f][i] == EntryOf(mem, f, i)
    ensures mem[f][i] == if f == pd then IdentityEntry(i)
                         else if i > 0 then 0
                         else LinkTo(if f == root then pdpt else pd, false)
  {
  }

  lemma BuiltPlaced(mem: Memory, root: Frame, pdpt: Frame, pd: Frame)
    requires Built(mem, root, pdpt, pd)
    ensures Placed(mem, BuiltPlaces(root, pdpt, pd), root)
  {
    hide AddrOf, LinkTo, IdentityEntry;
  }

  lemma BuiltLinks(mem: Memory, root: Frame, pdpt: Frame, pd: Frame)
    requires Built(mem, root, pdpt, pd)
    ensures forall f, i | f in mem && 0 <= i < TABLE_LEN && Present(mem[f][i]) ::
      Writable(mem[f][i]) && if f == pd then Huge(mem[f][i]) else i == 0 && !Huge(mem[f][i]) && NextTable(mem[f][i]) == (if f == root then pdpt else pd)
    ensures Present(mem[root][0]) && Present(mem[pdpt][0])
  {
    hide Writable, Present, Huge, User, AddrOf, NextTable, LinkTo, IdentityEntry;
    LinkWord(pdpt, false);
    LinkWord(pd, false);
    forall f, i | f in mem && 0 <= i < TABLE_LEN && Present(mem[f][i])
      ensures Writable(mem[f][i])
      ensures if f == pd then Huge(mem[f][i]) else i == 0 && !Huge(mem[f][i]) && NextTable(mem[f][i]) == (if f == root then pdpt else pd)
    {
      BuiltLink(mem, root, pdpt, pd, f, i);
    }
  }

  lemma BuiltLink(mem: Memory, root: Frame, pdpt: Frame, pd: Frame, f: Frame, i: nat)
    requires Built(mem, root, pdpt, pd) && f in mem && i < TABLE_LEN && Present(mem[f][i])
    ensures Writable(mem[f][i])
    ensures if f == pd then Huge(mem[f][i]) else i == 0 && !Huge(mem[f][i]) && NextTable(mem[f][i]) == (if f == root then pdpt else pd)
  {
    hide Writable, Present, Huge, User, AddrOf, NextTable, LinkTo, IdentityEntry;
    ZeroAbsent();
    BuiltEntry(mem, root, pdpt, pd, f, i);
    IdentityEntryEnds(i);
    LinkWord(pdpt, false);
    LinkWord(pd, false);
  }

  lemma BuiltLinked(mem: Memory, root: Frame, pdpt: Frame, pd: Frame)
    requires Built(mem, root, pdpt, pd)
    ensures AllLinked(mem, BuiltPlaces(root, pdpt, pd), root)
  {
    BuiltLinks(mem, root, pdpt, pd);
    var place := BuiltPlaces(root, pdpt, pd);
    assert place[root] == [] && place[pdpt] == [0] && place[pd] == [0, 0];
    hide Writable, Present, Huge, AddrOf, NextTable, LinkTo, IdentityEntry;
    assert LinksTo(mem, place, root, 0, pdpt) && LinksTo(mem, place, pdpt, 0, pd);
  }

  lemma BuiltTree(mem: Memory, root: Frame, pdpt: Frame, pd: Frame)
    requires Built(mem, root, pdpt, pd)
    ensures Tree(mem, BuiltPlaces(root, pdpt, pd), root)
    ensures Window(mem, BuiltPlaces(root, pdpt, pd), root, pdpt, pd)
  {
    hide AllLinked;
    BuiltLinks(mem, root, pdpt, pd);
    BuiltLinked(mem, root, pdpt, pd);
    BuiltPlaced(mem, root, pdpt, pd);
    var place := BuiltPlaces(root, pdpt, pd);
    assert place[root] == [] && place[pdpt] == [0] && place[pd] == [0, 0];
    hide Writable, Present, Huge, User, AddrOf, NextTable, LinkTo, IdentityEntry;
    forall f, i | f in place && 0 <= i < TABLE_LEN && Links(mem, place, f, i)
      ensures Writable(mem[f][i]) && NextTable(mem[f][i]) in place && place[NextTable(mem[f][i])] == place[f] + [i]
    {
      assert Present(mem[f][i]);
    }
    assert Links(mem, place, root, 0) && Links(mem, place, pdpt, 0);
  }

  lemma OutsideWindow(mem: Memory, root: Frame, v: bv64)
    requires Walk(mem, root, v, 3).None? && !LeafUser(mem, root, v, 3) && !InIdentity(v)
    requires !WriteWalk(mem, root, v, 3)
    ensures AgreeAt(mem, root, map[], v)
  {
    hide Walk, LeafUser, UserWalk, WriteWalk, InIdentity, Page;
  }

  lemma InsideWindow(mem: Memory, root: Frame, v: bv64)
    requires Walk(mem, root, v, 3) == Some(WindowAddr(v)) && !LeafUser(mem, root, v, 3) && InIdentity(v)
    requires WriteWalk(mem, root, v, 3)
    ensures AgreeAt(mem, root, map[], v)
  {
    hide Walk, LeafUser, UserWalk, WriteWalk, InIdentity, Page, WindowAddr;
  }

  lemma WindowLeaf(mem: Memory, root: Frame, pdpt: Frame, pd: Frame, v: bv64)
    requires Built(mem, root, pdpt, pd) && InIdentity(v)
    ensures Walk(mem, pd, v, 1) == Some(WindowAddr(v)) && !LeafUser(mem, pd, v, 1)
    ensures WriteWalk(mem, pd, v, 1)
  {
    BuiltEntry(mem, root, pdpt, pd, pd, Index(v, 1));
    IdentityTarget(v);
    IdentityEntryEnds(Index(v, 1));
    hide Writable, Present, Huge, User, IdentityEntry, Index, Target, InIdentity, WindowAddr, Built, EntryOf;
  }

  lemma BuiltAgreesAt(mem: Memory, root: Frame, pdpt: Frame, pd: Frame, v: bv64)
    requires Built(mem, root, pdpt, pd)
    ensures AgreeAt(mem, root, map[], v)
  {
    BuiltLinks(mem, root, pdpt, pd);
    IdentityIndices(v);
    BuiltEntry(mem, root, pdpt, pd, root, Index(v, 3));
    BuiltEntry(mem, root, pdpt, pd, pdpt, Index(v, 2));
    hide Writable, Present, Huge, User, AddrOf, NextTable, LinkTo, Index, InIdentity, AgreeAt, Walk, LeafUser, WriteWalk, EntryOf,
         IdentityEntry;
    if Index(v, 3) > 0 {
      NothingThere(mem, root, v, 3);
      OutsideWindow(mem, root, v);
    } else {
      LinkedEntry(mem, root, v, 3);
      if Index(v, 2) > 0 {
        NothingThere(mem, pdpt, v, 2);
        OutsideWindow(mem, root, v);
      } else {
        LinkedEntry(mem, pdpt, v, 2);
        WindowLeaf(mem, root, pdpt, pd, v);
        InsideWindow(mem, root, v);
      }
    }
  }

  lemma BuiltAgrees(mem: Memory, root: Frame, pdpt: Frame, pd: Frame)
    requires Built(mem, root, pdpt, pd)
    ensures Tree(mem, BuiltPlaces(root, pdpt, pd), root)
    ensures Window(mem, BuiltPlaces(root, pdpt, pd), root, pdpt, pd)
    ensures Agree(mem, root, map[])
  {
    hide Built, AgreeAt, Tree, Window;
    BuiltTree(mem, root, pdpt, pd);
    forall v: bv64 ensures AgreeAt(mem, root, map[], v) {
      BuiltAgreesAt(mem, root, pdpt, pd, v);
    }
  }

  /** Linking a fresh table keeps everything. */
  lemma AttachValid(mem: Memory, place: Places, root: Frame, pdpt: Frame, pd: Frame, pages: Pages, f: Frame, i: nat,
          g: Frame, user: bool)
    requires Tree(mem, place, root) && Window(mem, place, root, pdpt, pd) && Agree(mem, root, pages)
    requires f in place && i < TABLE_LEN && |place[f]| < 3 && !Present(mem[f][i])
    requires g !in place && g.addr < IDENTITY_LIMIT && AddrOf(g.addr) == g.addr
    ensures var mem', place' := Attach(mem, f, i, g, LinkTo(g, user)), place[g := place[f] + [i]];
      Tree(mem', place', root) && Window(mem', place', root, pdpt, pd) && Agree(mem', root, pages)
  {
    hide AllLinked;
    LinkWord(g, user);
    hide Window, Agree, Attach, AddrOf, Present, Huge, User, NextTable, LinkTo;
    AttachTree(mem, place, root, f, i, g, LinkTo(g, user));
    AttachWindow(mem, place, root, pdpt, pd, f, i, g, LinkTo(g, user));
    AttachAgrees(mem, place, root, pages, f, i, g, LinkTo(g, user));
  }

  /** The leaf is present exactly when the page is mapped. */
  lemma LeafPresence(mem: Memory, place: Places, root: Frame, pages: Pages, table: Frame, virt: bv64)
    requires Reached(mem, place, root, table, virt, 0, false) && AgreeAt(mem, root, pages, virt) && !InIdentity(virt)
    ensures Present(EntryOf(mem, table, Index(virt, 0))) <==> Page(virt) in pages
  {
    ReachedWalk(mem, place, root, table, virt, 0);
    hide Writable, Present, User, Huge, Index, Page, InIdentity, PageAddr, WindowAddr, Target, EntryOf, Reached, LeafUser,
         UserWalk;
  }

  lemma UnmapValid(mem: Memory, place: Places, root: Frame, pdpt: Frame, pd: Frame, pages: Pages, table: Frame,
          virt: bv64)
    requires Tree(mem, place, root) && Window(mem, place, root, pdpt, pd) && Agree(mem, root, pages)
    requires Reached(mem, place, root, table, virt, 0, false) && !InIdentity(virt)
    ensures table in mem && |mem[table]| == TABLE_LEN
    ensures Present(mem[table][Index(virt, 0)]) <==> Page(virt) in pages
    ensures var mem' := Put(mem, table, Index(virt, 0), 0);
      Tree(mem', place, root) && Window(mem', place, root, pdpt, pd) && Agree(mem', root, pages - {Page(virt)})
  {
    hide AllLinked;
    assert AgreeAt(mem, root, pages, virt);
    assert table in place && |place[table]| == 3 && |mem[table]| == TABLE_LEN;
    hide Window, Agree, AgreeAt, Put, Index, Page, InIdentity, Present;
    LeafPresence(mem, place, root, pages, table, virt);
    LeafTree(mem, place, root, table, Index(virt, 0), 0);
    LeafWindow(mem, place, root, pdpt, pd, table, Index(virt, 0), 0);
    UnmapAgrees(mem, place, root, pages, table, virt);
  }

  lemma MapValid(mem: Memory, place: Places, root: Frame, pdpt: Frame, pd: Frame, pages: Pages, table: Frame,
                 virt: bv64, phys: bv64, flags: bv64, user: bool)
    requires Tree(mem, place, root) && Window(mem, place, root, pdpt, pd) && Agree(mem, root, pages)
    requires Reached(mem, place, root, table, virt, 0, user) && !InIdentity(virt)
    requires AddrOf(phys) == phys && GoodFlags(flags)
    ensures table in mem && |mem[table]| == TABLE_LEN
    ensures var mem' := Put(mem, table, Index(virt, 0), LeafWord(phys, flags, user));
      && Tree(mem', place, root) && Window(mem', place, root, pdpt, pd)
      && Agree(mem', root, pages[Page(virt) := Mapping(phys, user, Writable(flags))])
  {
    hide AllLinked;
    assert table in place && |place[table]| == 3 && |mem[table]| == TABLE_LEN;
    hide Window, Agree, Put, Index, Page, InIdentity, LeafWord, AddrOf, GoodFlags;
    var leaf := LeafWord(phys, flags, user);
    LeafTree(mem, place, root, table, Index(virt, 0), leaf);
    LeafWindow(mem, place, root, pdpt, pd, table, Index(virt, 0), leaf);
    MapAgrees(mem, place, root, pages, table, virt, phys, flags, user);
  }
}
