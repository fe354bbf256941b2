/** What the tables mean to the processor: 4-level paging as section 4.5 of the Intel SDM
    Volume 3A lays it out, in figures, and the kernel's own walks against it. */
module PagingFormat {
  import opened Common
  import opened PageWalk

  // ---- The processor's walk --------------------------------------------------------------------

  /** A fault, or the physical address with what the entries' U/S and R/W bits allow. */
  datatype Access = Fault | Access(phys: bv64, user: bool, write: bool)

  /** Bits 47:39, 38:30, 29:21 and 20:12 of a linear address. */
  function Bits47To39(v: bv64): bv64 { (v >> 39) & 0x1FF }

  function Bits38To30(v: bv64): bv64 { (v >> 30) & 0x1FF }

  function Bits29To21(v: bv64): bv64 { (v >> 21) & 0x1FF }

  function Bits20To12(v: bv64): bv64 { (v >> 12) & 0x1FF }

  /** The 8-byte entry that such a field selects. */
  function Entry(mem: Memory, table: bv64, field: bv64): bv64 { EntryOf(mem, Frame(table), field as int) }

  predicate P(e: bv64) { e & 1 == 1 }        // present

  predicate RW(e: bv64) { e & 2 == 2 }       // writes allowed

  predicate US(e: bv64) { e & 4 == 4 }       // ring 3 allowed

  predicate PS(e: bv64) { e & 0x80 == 0x80 } // maps a page

  /** Bits 51:12 of an entry, 51:21 and 51:30 for the large pages. */
  function Base(e: bv64): bv64 { e & 0x000F_FFFF_FFFF_F000 }

  function Page2M(e: bv64, v: bv64): bv64 { (e & 0x000F_FFFF_FFE0_0000) + (v & 0x1F_FFFF) }

  function Page1G(e: bv64, v: bv64): bv64 { (e & 0x000F_FFFF_C000_0000) + (v & 0x3FFF_FFFF) }

  function Page4K(e: bv64, v: bv64): bv64 { (e & 0x000F_FFFF_FFFF_F000) + (v & 0xFFF) }

  function Mmu(mem: Memory, cr3: bv64, v: bv64): Access {
    var pml4e := Entry(mem, cr3, Bits47To39(v));
    if !P(pml4e) then Fault else
    var pdpte := Entry(mem, Base(pml4e), Bits38To30(v));
    if !P(pdpte) then Fault
    else if PS(pdpte) then Access(Page1G(pdpte, v), US(pml4e) && US(pdpte), RW(pml4e) && RW(pdpte))
    else
    var pde := Entry(mem, Base(pdpte), Bits29To21(v));
    if !P(pde) then Fault
    else if PS(pde) then
      Access(Page2M(pde, v), US(pml4e) && US(pdpte) && US(pde), RW(pml4e) && RW(pdpte) && RW(pde))
    else
    var pte := Entry(mem, Base(pde), Bits20To12(v));
    if !P(pte) then Fault
    else Access(Page4K(pte, v), US(pml4e) && US(pdpte) && US(pde) && US(pte), RW(pml4e) && RW(pdpte) && RW(pde) && RW(pte))
  }

  /** What the walks of the kernel make of an address, from a table at a level. */
  function Walked(mem: Memory, t: Frame, v: bv64, level: nat): Access
    requires level < 4
  {
    var r := Walk(mem, t, v, level);
    if r.None? then Fault else Access(r.value, UserWalk(mem, t, v, level), WriteWalk(mem, t, v, level))
  }

  /** Below an entry with these bits. */
  function Under(e: bv64, a: Access): Access {
    if a.Fault? then Fault else Access(a.phys, User(e) && a.user, Writable(e) && a.write)
  }

  lemma WalkedUnfolds(mem: Memory, t: Frame, v: bv64, level: nat)
    requires level < 4
    ensures var e := EntryOf(mem, t, Index(v, level));
      Walked(mem, t, v, level) ==
        if !Present(e) then Fault
        else if EndsWalk(e, level) then Access(Target(e, v, level), User(e), Writable(e))
        else Under(e, Walked(mem, NextTable(e), v, level - 1))
  {
    hide Present, Huge, User, Writable, NextTable, Target, Index, EntryOf;
  }

  lemma PresentFlag(e: bv64)
    ensures Present(e) == P(e)
  {
  }

  lemma WritableFlag(e: bv64)
    ensures Writable(e) == RW(e)
  {
  }

  lemma UserFlag(e: bv64)
    ensures User(e) == US(e)
  {
  }

  lemma HugeFlag(e: bv64)
    ensures Huge(e) == PS(e)
  {
  }

  lemma LinkBase(e: bv64)
    ensures NextTable(e) == Frame(Base(e))
  {
  }

  lemma Target4K(e: bv64, v: bv64)
    ensures Target(e, v, 0) == Page4K(e, v)
  {
  }

  lemma Target2M(e: bv64, v: bv64)
    ensures Target(e, v, 1) == Page2M(e, v)
  {
  }

  lemma Target1G(e: bv64, v: bv64)
    ensures Target(e, v, 2) == Page1G(e, v)
  {
  }

  lemma Fields(v: bv64)
    ensures Index(v, 3) == Bits47To39(v) as int && Index(v, 2) == Bits38To30(v) as int
    ensures Index(v, 1) == Bits29To21(v) as int && Index(v, 0) == Bits20To12(v) as int
  {
  }

  function EntryFor(mem: Memory, t: bv64, v: bv64, level: nat): bv64
    requires level < 4
  {
    EntryOf(mem, Frame(t), Index(v, level))
  }

  lemma Entries(mem: Memory, t: bv64, v: bv64)
    ensures EntryFor(mem, t, v, 3) == Entry(mem, t, Bits47To39(v))
    ensures EntryFor(mem, t, v, 2) == Entry(mem, t, Bits38To30(v))
    ensures EntryFor(mem, t, v, 1) == Entry(mem, t, Bits29To21(v))
    ensures EntryFor(mem, t, v, 0) == Entry(mem, t, Bits20To12(v))
  {
    hide EntryOf, Index, Bits47To39, Bits38To30, Bits29To21, Bits20To12;
    Fields(v);
  }

  lemma Bits(e: bv64, v: bv64)
    ensures Present(e) == P(e) && Writable(e) == RW(e) && User(e) == US(e) && Huge(e) == PS(e)
    ensures NextTable(e) == Frame(Base(e))
    ensures Target(e, v, 0) == Page4K(e, v) && Target(e, v, 1) == Page2M(e, v) && Target(e, v, 2) == Page1G(e, v)
  {
    hide Present, Huge, User, Writable, NextTable, Target, P, RW, US, PS, Base, Page4K, Page2M, Page1G;
    PresentFlag(e);
    WritableFlag(e);
    UserFlag(e);
    HugeFlag(e);
    LinkBase(e);
    Target4K(e, v);
    Target2M(e, v);
    Target1G(e, v);
  }

  lemma Level3(mem: Memory, t: bv64, v: bv64)
    ensures var e := Entry(mem, t, Bits47To39(v));
      Walked(mem, Frame(t), v, 3) == if !P(e) then Fault else Under(e, Walked(mem, Frame(Base(e)), v, 2))
  {
    hide Walked, Entry, EntryOf, Index, Present, Huge, User, Writable, NextTable, Target, P, RW, US, PS, Base, Page4K,
         Page2M, Page1G, Bits47To39, Bits38To30, Bits29To21, Bits20To12, Under;
    Entries(mem, t, v);
    WalkedUnfolds(mem, Frame(t), v, 3);
    Bits(EntryFor(mem, t, v, 3), v);
  }

  lemma Level2(mem: Memory, t: bv64, v: bv64)
    ensures var e := Entry(mem, t, Bits38To30(v));
      Walked(mem, Frame(t), v, 2) ==
        if !P(e) then Fault
        else if PS(e) then Access(Page1G(e, v), US(e), RW(e))
        else Under(e, Walked(mem, Frame(Base(e)), v, 1))
  {
    hide Walked, Entry, EntryOf, Index, Present, Huge, User, Writable, NextTable, Target, P, RW, US, PS, Base, Page4K,
         Page2M, Page1G, Bits47To39, Bits38To30, Bits29To21, Bits20To12, Under;
    Entries(mem, t, v);
    WalkedUnfolds(mem, Frame(t), v, 2);
    Bits(EntryFor(mem, t, v, 2), v);
  }

  lemma Level1(mem: Memory, t: bv64, v: bv64)
    ensures var e := Entry(mem, t, Bits29To21(v));
      Walked(mem, Frame(t), v, 1) ==
        if !P(e) then Fault
        else if PS(e) then Access(Page2M(e, v), US(e), RW(e))
        else Under(e, Walked(mem, Frame(Base(e)), v, 0))
  {
    hide Walked, Entry, EntryOf, Index, Present, Huge, User, Writable, NextTable, Target, P, RW, US, PS, Base, Page4K,
         Page2M, Page1G, Bits47To39, Bits38To30, Bits29To21, Bits20To12, Under;
    Entries(mem, t, v);
    WalkedUnfolds(mem, Frame(t), v, 1);
    Bits(EntryFor(mem, t, v, 1), v);
  }

  lemma Level0(mem: Memory, t: bv64, v: bv64)
    ensures var e := Entry(mem, t, Bits20To12(v));
      Walked(mem, Frame(t), v, 0) == if !P(e) then Fault else Access(Page4K(e, v), US(e), RW(e))
  {
    hide Walked, Entry, EntryOf, Index, Present, Huge, User, Writable, NextTable, Target, P, RW, US, PS, Base, Page4K,
         Page2M, Page1G, Bits47To39, Bits38To30, Bits29To21, Bits20To12, Under;
    Entries(mem, t, v);
    WalkedUnfolds(mem, Frame(t), v, 0);
    Bits(EntryFor(mem, t, v, 0), v);
  }

  lemma UnderFlags(e: bv64, a: Access)
    ensures Under(e, a) == if a.Fault? then Fault else Access(a.phys, US(e) && a.user, RW(e) && a.write)
  {
    hide User, Writable, US, RW;
    UserFlag(e);
    WritableFlag(e);
  }

  /** The kernel's walks are the processor's, on any tables whatever: `translate` gives the
      address that an access goes to, and the U/S and R/W bits count at every level. */
  lemma WalksAreTheProcessors(mem: Memory, cr3: bv64, v: bv64)
    ensures Mmu(mem, cr3, v) == Walked(mem, Frame(cr3), v, 3)
  {
    hide Walked, Entry, P, RW, US, PS, Base, Page4K, Page2M, Page1G, Bits47To39, Bits38To30, Bits29To21, Bits20To12,
         Under;
    Level3(mem, cr3, v);
    var a := Entry(mem, cr3, Bits47To39(v));
    UnderFlags(a, Walked(mem, Frame(Base(a)), v, 2));
    Level2(mem, Base(a), v);
    var b := Entry(mem, Base(a), Bits38To30(v));
    UnderFlags(b, Walked(mem, Frame(Base(b)), v, 1));
    Level1(mem, Base(b), v);
    var c := Entry(mem, Base(b), Bits29To21(v));
    UnderFlags(c, Walked(mem, Frame(Base(c)), v, 0));
    Level0(mem, Base(c), v);
  }

  // ---- Words written ---------------------------------------------------------------------------

  /** A leaf: the frame, present, the user bit as asked, and every bit of the flags. */
  predicate LeafHolds(leaf: bv64, frame: bv64, flags: bv64, user: bool) {
    && leaf & 0x000F_FFFF_FFFF_F000 == frame && leaf & 1 == 1 && leaf & 4 == (if user then 4 else 0)
    && leaf & flags == flags
  }

  lemma LeafBits(phys: bv64, flags: bv64, user: bool)
    requires AddrOf(phys) == phys && GoodFlags(flags)
    ensures LeafHolds(LeafWord(phys, flags, user), phys, flags, user)
  {
    LeafFrame(phys, flags, user);
    LeafFlags(phys, flags, user);
  }

  lemma LeafFrame(phys: bv64, flags: bv64, user: bool)
    requires phys & 0x000F_FFFF_FFFF_F000 == phys && GoodFlags(flags)
    ensures LeafWord(phys, flags, user) & 0x000F_FFFF_FFFF_F000 == phys
    ensures LeafWord(phys, flags, user) & 4 == if user then 4 else 0
  {
  }

  lemma LeafFlags(phys: bv64, flags: bv64, user: bool)
    ensures LeafWord(phys, flags, user) & flags == flags && LeafWord(phys, flags, user) & 1 == 1
  {
  }

  /** The word of a link: the table, present, writable, and the user bit. */
  lemma LinkBits(next: Frame, user: bool)
    requires next.addr & 0x000F_FFFF_FFFF_F000 == next.addr
    ensures LinkTo(next, user) & 0x000F_FFFF_FFFF_F000 == next.addr
    ensures LinkTo(next, user) & 0xFFF0_0000_0000_0FFF == if user then 7 else 3
  {
  }

  lemma LoosenedBits(e: bv64)
    ensures Loosened(e) & 4 == 4 && Loosened(e) & !4 == e & !4
  {
  }

  /** The window's large pages: present, writable, large, 2 MiB apart. */
  lemma WindowBits(x: bv64)
    requires x < 512
    ensures WindowEntry(x) & 0xFFF0_0000_0000_0FFF == 0x83 && WindowEntry(x) & 0x000F_FFFF_FFFF_F000 == x << 21
  {
  }

  // ---- Addresses ---------------------------------------------------------------------------------

  /** `phys` lies in the frame, as far from its first byte as `virt` from its page's. */
  predicate InFrame(phys: bv64, frame: bv64, virt: bv64) {
    phys & 0xFFF == virt & 0xFFF && phys & 0xFFFF_FFFF_FFFF_F000 == frame
  }

  lemma OffsetKept(frame: bv64, virt: bv64)
    requires frame & 0xFFF == 0
    ensures InFrame(PageAddr(frame, virt), frame, virt)
  {
  }

  lemma WindowIsIdentity(virt: bv64)
    ensures InIdentity(virt) <==> virt & 0x0000_FFFF_C000_0000 == 0
    ensures WindowAddr(virt) == virt & 0x3FFF_FFFF
  {
  }

  lemma BelowWindowEnd(virt: bv64)
    ensures virt < 0x4000_0000 ==> InIdentity(virt) && WindowAddr(virt) == virt
  {
  }

  lemma WriteBit(flags: bv64)
    ensures Writable(flags) <==> flags & 2 != 0
  {
  }
}
