/** 4-level paging as pure logic: entry words, table indices and the three walks of
    src/paging.rs, over a table memory that maps each table frame to its 512 entries. */
module PageWalk {
  import opened Common

  /** A table frame, by physical address. */
  datatype Frame = Frame(addr: bv64)

  /** A 4 KiB page, by bits 12..47 of its addresses. */
  datatype VPage = VPage(bits: bv64)

  type Memory = map<Frame, seq<bv64>>

  const ADDR_MASK: bv64 := 0x000F_FFFF_FFFF_F000
  const PRESENT: bv64 := 0x01
  const WRITABLE: bv64 := 0x02
  const USER: bv64 := 0x04
  const HUGE: bv64 := 0x80
  const IDENTITY_LIMIT: bv64 := 0x4000_0000
  const OFFSET_MASK: bv64 := 0xFFF
  const TABLE_LEN := 512

  predicate Present(e: bv64) { e & PRESENT != 0 }

  predicate Huge(e: bv64) { e & HUGE != 0 }

  predicate User(e: bv64) { e & USER != 0 }

  predicate Writable(e: bv64) { e & WRITABLE != 0 }

  function AddrOf(e: bv64): bv64 { e & ADDR_MASK }

  function NextTable(e: bv64): Frame { Frame(AddrOf(e)) }

  /** The 9-bit field of `virt` at a level (3 = PML4, 2 = PDPT, 1 = PD, 0 = PT). */
  function Field(virt: bv64, level: nat): bv64
    requires level < 4
  {
    if level == 3 then (virt >> 39) & 0x1FF
    else if level == 2 then (virt >> 30) & 0x1FF
    else if level == 1 then (virt >> 21) & 0x1FF
    else (virt >> 12) & 0x1FF
  }

  /** `table_index`: that field as an array index. */
  function Index(virt: bv64, level: nat): (i: nat)
    requires level < 4
    ensures i < TABLE_LEN
  {
    SmallField(virt, level);
    Field(virt, level) as int
  }

  lemma SmallField(virt: bv64, level: nat)
    requires level < 4
    ensures 0 <= Field(virt, level) as int < TABLE_LEN
  {
    SmallNumber(virt >> 39);
    SmallNumber(virt >> 30);
    SmallNumber(virt >> 21);
    SmallNumber(virt >> 12);
  }

  lemma SmallNumber(x: bv64)
    ensures 0 <= (x & 0x1FF) as int < TABLE_LEN
  {
  }

  /** The indices that select the entry for `virt`, from the PML4 down. */
  function Path(virt: bv64): (p: seq<nat>)
    ensures |p| == 4
  {
    [Index(virt, 3), Index(virt, 2), Index(virt, 1), Index(virt, 0)]
  }

  /** Bits 12..47, which are all that a walk looks at besides the page offset. */
  function Page(virt: bv64): VPage { VPage(virt & 0x0000_FFFF_FFFF_F000) }

  /** Bits 30..47 are zero: the walk goes through the first PML4 and PDPT entries. */
  predicate InIdentity(virt: bv64) { virt & 0x0000_FFFF_C000_0000 == 0 }

  function EntryOf(mem: Memory, table: Frame, i: nat): bv64 {
    if table in mem && i < |mem[table]| then mem[table][i] else 0
  }

  /** A large page ends the walk, but only at the PD and PDPT levels. */
  predicate EndsWalk(e: bv64, level: nat) { level == 0 || (level <= 2 && Huge(e)) }

  /** The physical address that a present, walk-ending entry gives. */
  function Target(e: bv64, virt: bv64, level: nat): bv64 {
    var mask: bv64 := if level == 0 then OFFSET_MASK else if level == 1 then 0x1F_FFFF else 0x3FFF_FFFF;
    (AddrOf(e) & !mask) + (virt & mask)
  }

  /** `translate_from` */
  function Walk(mem: Memory, table: Frame, virt: bv64, level: nat): Option<bv64>
    requires level < 4
    decreases level
  {
    var e := EntryOf(mem, table, Index(virt, level));
    if !Present(e) then None
    else if EndsWalk(e, level) then Some(Target(e, virt, level))
    else Walk(mem, NextTable(e), virt, level - 1)
  }

  /** `page_user_accessible`: present and user at every level. */
  function UserWalk(mem: Memory, table: Frame, virt: bv64, level: nat): bool
    requires level < 4
    decreases level
  {
    var e := EntryOf(mem, table, Index(virt, level));
    Present(e) && User(e) && (EndsWalk(e, level) || UserWalk(mem, NextTable(e), virt, level - 1))
  }

  /** Whether the entry that ends the walk is present and user, whatever lies above it. */
  function LeafUser(mem: Memory, table: Frame, virt: bv64, level: nat): bool
    requires level < 4
    decreases level
  {
    var e := EntryOf(mem, table, Index(virt, level));
    Present(e) && if EndsWalk(e, level) then User(e) else LeafUser(mem, NextTable(e), virt, level - 1)
  }

  /** Present and writable at every level. */
  function WriteWalk(mem: Memory, table: Frame, virt: bv64, level: nat): bool
    requires level < 4
    decreases level
  {
    var e := EntryOf(mem, table, Index(virt, level));
    Present(e) && Writable(e) && (EndsWalk(e, level) || WriteWalk(mem, NextTable(e), virt, level - 1))
  }

  /** The table that the walk reaches at level `target`, going, if `user` is set, through
      user entries only. */
  function ReachAt(mem: Memory, table: Frame, virt: bv64, level: nat, target: nat, user: bool): Option<Frame>
    requires level < 4 && target <= level
    decreases level
  {
    if level == target then Some(table)
    else
      var e := EntryOf(mem, table, Index(virt, level));
      if !Present(e) || EndsWalk(e, level) || (user && !User(e)) then None
      else ReachAt(mem, NextTable(e), virt, level - 1, target, user)
  }

  /** The last-level entry for `virt`, along the links. */
  function Leaf(mem: Memory, table: Frame, virt: bv64, level: nat): bv64
    requires level < 4
    decreases level
  {
    var e := EntryOf(mem, table, Index(virt, level));
    if level == 0 then e else Leaf(mem, NextTable(e), virt, level - 1)
  }

  /** How many tables a descent to the PT of `virt` has to create. */
  function Missing(mem: Memory, table: Frame, virt: bv64, level: nat): (n: nat)
    requires level < 4
    ensures n <= level
    decreases level
  {
    if level == 0 then 0
    else
      var e := EntryOf(mem, table, Index(virt, level));
      if !Present(e) then level
      else if EndsWalk(e, level) then 0
      else Missing(mem, NextTable(e), virt, level - 1)
  }

  // ---- Facts about words and addresses ---------------------------------------------

  function Loosened(e: bv64): bv64 { e | USER }

  lemma UserBitOnly(e: bv64)
    ensures NextTable(Loosened(e)) == NextTable(e) && Present(Loosened(e)) == Present(e)
    ensures Huge(Loosened(e)) == Huge(e) && User(Loosened(e)) && Writable(Loosened(e)) == Writable(e)
  {
    UserBitAddr(e);
    UserBitFlags(e);
  }

  lemma UserBitAddr(e: bv64)
    ensures (e | USER) & ADDR_MASK == e & ADDR_MASK
  {
  }

  lemma UserBitFlags(e: bv64)
    ensures (e | USER) & PRESENT == e & PRESENT && (e | USER) & HUGE == e & HUGE && (e | USER) & USER != 0
    ensures (e | USER) & WRITABLE == e & WRITABLE
  {
  }

  /** The entry that links a table: `next | new_table`. */
  function LinkTo(next: Frame, user: bool): bv64 {
    next.addr | (if user then PRESENT | WRITABLE | USER else PRESENT | WRITABLE)
  }

  lemma LinkWord(next: Frame, user: bool)
    requires AddrOf(next.addr) == next.addr
    ensures var e := LinkTo(next, user);
      Present(e) && Writable(e) && !Huge(e) && User(e) == user && NextTable(e) == next
  {
  }

  /** The address inside the 4 KiB frame that `virt` has inside its page. */
  function PageAddr(frame: bv64, virt: bv64): bv64 { frame + (virt & OFFSET_MASK) }

  /** The identity window's translation. */
  function WindowAddr(virt: bv64): bv64 { virt & 0x3FFF_FFFF }

  /** Flags that touch neither the address bits nor the user bit. */
  predicate GoodFlags(flags: bv64) { flags & (ADDR_MASK | USER) == 0 }

  function LeafWord(phys: bv64, flags: bv64, user: bool): bv64 {
    phys | flags | PRESENT | (if user then USER else 0)
  }

  lemma LeafWordReads(phys: bv64, flags: bv64, user: bool, virt: bv64)
    requires AddrOf(phys) == phys && GoodFlags(flags)
    ensures var e := LeafWord(phys, flags, user);
      Present(e) && User(e) == user && Target(e, virt, 0) == PageAddr(phys, virt)
  {
  }

  lemma LeafWordWritable(phys: bv64, flags: bv64, user: bool)
    requires AddrOf(phys) == phys
    ensures Writable(LeafWord(phys, flags, user)) == Writable(flags)
  {
  }

  lemma SameFields(v: bv64, w: bv64)
    requires (v >> 12) & 0x1FF == (w >> 12) & 0x1FF && (v >> 21) & 0x1FF == (w >> 21) & 0x1FF
    requires (v >> 30) & 0x1FF == (w >> 30) & 0x1FF && (v >> 39) & 0x1FF == (w >> 39) & 0x1FF
    ensures Page(v) == Page(w)
  {
  }

  lemma SamePageField(v: bv64, w: bv64, level: nat)
    requires Page(v) == Page(w) && level < 4
    ensures Field(v, level) == Field(w, level)
  {
  }

  lemma EqualNumbers(x: bv64, y: bv64)
    requires x as int == y as int
    ensures x == y
  {
    assert (x as int) as bv64 == x && (y as int) as bv64 == y;
  }

  lemma SameIndex(v: bv64, w: bv64, level: nat)
    requires level < 4
    ensures Index(v, level) == Index(w, level) <==> Field(v, level) == Field(w, level)
  {
    hide Field;
    if Index(v, level) == Index(w, level) {
      EqualNumbers(Field(v, level), Field(w, level));
    }
  }

  /** Addresses compare by bits 12..47. */
  lemma SamePath(v: bv64, w: bv64)
    ensures Path(v) == Path(w) <==> Page(v) == Page(w)
  {
    hide Page, Field, Index;
    SameIndex(v, w, 0);
    SameIndex(v, w, 1);
    SameIndex(v, w, 2);
    SameIndex(v, w, 3);
    if Page(v) == Page(w) {
      SamePageField(v, w, 0);
      SamePageField(v, w, 1);
      SamePageField(v, w, 2);
      SamePageField(v, w, 3);
    }
    if Path(v) == Path(w) {
      assert Path(v)[0] == Path(w)[0] && Path(v)[1] == Path(w)[1] && Path(v)[2] == Path(w)[2] && Path(v)[3] == Path(w)[3];
      FieldsDecidePage(v, w);
    }
  }

  lemma FieldsDecidePage(v: bv64, w: bv64)
    requires Field(v, 0) == Field(w, 0) && Field(v, 1) == Field(w, 1)
    requires Field(v, 2) == Field(w, 2) && Field(v, 3) == Field(w, 3)
    ensures Page(v) == Page(w)
  {
    SameFields(v, w);
  }

  lemma IdentityFields(v: bv64)
    ensures InIdentity(v) <==> (v >> 39) & 0x1FF == 0 && (v >> 30) & 0x1FF == 0
  {
  }

  lemma ZeroNumber(x: bv64)
    ensures x as int == 0 <==> x == 0
  {
    if x as int == 0 { EqualNumbers(x, 0); }
  }

  lemma IdentityIndices(v: bv64)
    ensures InIdentity(v) <==> Index(v, 3) == 0 && Index(v, 2) == 0
  {
    hide InIdentity;
    IdentityFields(v);
    ZeroNumber((v >> 39) & 0x1FF);
    ZeroNumber((v >> 30) & 0x1FF);
  }

  /** The i-th entry of the identity window's PD: the 2 MiB page at i * 2 MiB. */
  function IdentityEntry(i: nat): bv64
    requires i < TABLE_LEN
  {
    WindowEntry(i as bv64)
  }

  lemma IdentityWord(x: bv64)
    requires x < 512
    ensures var e := (x * 0x20_0000) | PRESENT | WRITABLE | HUGE;
      Present(e) && Huge(e) && !User(e) && AddrOf(e) == (x << 21)
  {
  }

  lemma IdentityAddress(v: bv64)
    requires InIdentity(v)
    ensures ((((v >> 21) & 0x1FF) << 21) & !0x1F_FFFF) + (v & 0x1F_FFFF) == v & 0x3FFF_FFFF
  {
  }

  function WindowEntry(x: bv64): bv64 { (x * 0x20_0000) | PRESENT | WRITABLE | HUGE }

  lemma IdentityEntryOf(v: bv64)
    ensures IdentityEntry(Index(v, 1)) == WindowEntry((v >> 21) & 0x1FF)
  {
    hide WindowEntry;
    var x: bv64 := (v >> 21) & 0x1FF;
    BackToWord(x);
  }

  lemma BackToWord(x: bv64)
    ensures (x as int) as bv64 == x
  {
  }

  lemma WindowTarget(v: bv64)
    requires InIdentity(v)
    ensures Target(WindowEntry((v >> 21) & 0x1FF), v, 1) == WindowAddr(v)
  {
    IdentityWord((v >> 21) & 0x1FF);
    IdentityAddress(v);
  }

  lemma IdentityTarget(v: bv64)
    requires InIdentity(v)
    ensures Target(IdentityEntry(Index(v, 1)), v, 1) == WindowAddr(v)
  {
    hide Target, IdentityEntry, WindowEntry, Index, InIdentity, WindowAddr;
    IdentityEntryOf(v);
    WindowTarget(v);
  }

  lemma IdentityEntryEnds(i: nat)
    requires i < TABLE_LEN
    ensures Present(IdentityEntry(i)) && Huge(IdentityEntry(i)) && !User(IdentityEntry(i)) && Writable(IdentityEntry(i))
  {
    WindowEntryEnds(i as bv64);
  }

  lemma WindowEntryEnds(x: bv64)
    ensures var e := WindowEntry(x); Present(e) && Huge(e)
    ensures !User(WindowEntry(x)) && Writable(WindowEntry(x))
  {
  }
}
