/** The Multiboot2 boot-information parser of src/multiboot.rs, over mapped memory given
    as a byte string indexed by physical address. The layout it has to agree with,
    section 3.6 of the Multiboot2 specification, is written down as an encoder. */
module Multiboot {
  import opened Common
  import opened LittleEndian
  import opened Frames

  /** Memory the boot page tables map: addresses stay below it, so none of the parser's
      64-bit sums can wrap. */
  const BOOT_MAP_LIMIT := 0x4000_0000

  const TAG_TYPE_END := 0
  const TAG_TYPE_MEMORY_MAP := 6
  const HEADER_LEN := 8
  const ENTRY_LEN := 24

  /** The iterator's state: next entry, end of the tag, stride. */
  datatype Window = Window(next: nat, end: nat, entrySize: nat)

  function ReadU64(memory: seq<byte>, p: nat): u64
    requires p + 8 <= |memory|
  {
    ReadU32(memory, p) + U32 * ReadU32(memory, p + 4)
  }

  function RoundUp8(n: nat): nat { (n + 7) / 8 * 8 }

  /** The tags from `p` on are in memory as far as the parser reads them. It reads the entry
      size of a memory-map tag before the tag's size, so a tag cut short by the structure's
      end needs up to four bytes behind that. */
  ghost predicate Readable(memory: seq<byte>, p: nat, end: nat)
    requires end <= |memory|
    decreases end - p
  {
    p + HEADER_LEN <= end && ReadU32(memory, p + 4) >= HEADER_LEN && ReadU32(memory, p) != TAG_TYPE_END ==>
      if ReadU32(memory, p) == TAG_TYPE_MEMORY_MAP then p + HEADER_LEN + 4 <= |memory|
      else Readable(memory, p + RoundUp8(ReadU32(memory, p + 4)), end)
  }

  lemma {:induction false} FourBytesSuffice(memory: seq<byte>, p: nat, end: nat)
    requires end + 4 <= |memory|
    ensures Readable(memory, p, end)
    decreases end - p
  {
    hide ReadU32;
    if p + HEADER_LEN <= end && ReadU32(memory, p + 4) >= HEADER_LEN {
      FourBytesSuffice(memory, p + RoundUp8(ReadU32(memory, p + 4)), end);
    }
  }

  /** The structure is mapped, and readable as far as the parser reads. */
  ghost predicate Mapped(memory: seq<byte>, addr: nat) {
    && |memory| <= BOOT_MAP_LIMIT
    && addr + 8 <= |memory|
    && addr + ReadU32(memory, addr) <= |memory|
    && Readable(memory, addr + 8, addr + ReadU32(memory, addr))
  }

  /** What `memory_map` finds from the tag at `p` on. */
  function FindMap(memory: seq<byte>, p: nat, end: nat): (r: Option<Window>)
    requires end <= |memory| && Readable(memory, p, end)
    ensures r.Some? ==> r.value.end <= end && r.value.entrySize >= ENTRY_LEN
    decreases end - p
  {
    if p + HEADER_LEN > end then None
    else
      var typ := ReadU32(memory, p);
      var size := ReadU32(memory, p + 4);
      if size < HEADER_LEN || typ == TAG_TYPE_END then None
      else if typ == TAG_TYPE_MEMORY_MAP then
        var entrySize := ReadU32(memory, p + 8);
        if entrySize < ENTRY_LEN then None else Some(Window(p + 16, Min(p + size, end), entrySize))
      else FindMap(memory, p + RoundUp8(size), end)
  }

  function RegionAt(memory: seq<byte>, p: nat): MemoryRegion
    requires p + ENTRY_LEN <= |memory|
  {
    MemoryRegion(ReadU64(memory, p), ReadU64(memory, p + 8), ReadU32(memory, p + 16))
  }

  /** The regions that the iterator still has to yield. */
  function Remaining(memory: seq<byte>, w: Window): seq<MemoryRegion>
    requires w.end <= |memory| && w.entrySize >= ENTRY_LEN
    decreases w.end - w.next
  {
    if w.next + w.entrySize > w.end then []
    else [RegionAt(memory, w.next)] + Remaining(memory, w.(next := w.next + w.entrySize))
  }

  method MemoryMap(memory: seq<byte>, addr: nat) returns (r: Option<Window>)
    requires Mapped(memory, addr)
    ensures r == FindMap(memory, addr + 8, addr + ReadU32(memory, addr))
  {
    var tagPtr := addr + 8;
    var end := addr + ReadU32(memory, addr);
    while tagPtr + HEADER_LEN <= end
      invariant Readable(memory, tagPtr, end) && FindMap(memory, addr + 8, end) == FindMap(memory, tagPtr, end)
      decreases end - tagPtr
    {
      var typ := ReadU32(memory, tagPtr);
      var size := ReadU32(memory, tagPtr + 4);
      if size < HEADER_LEN { return None; }
      if typ == TAG_TYPE_END { return None; }
      if typ == TAG_TYPE_MEMORY_MAP {
        var entrySize := ReadU32(memory, tagPtr + 8);
        if entrySize < ENTRY_LEN { return None; }
        return Some(Window(tagPtr + 16, Min(tagPtr + size, end), entrySize));
      }
      tagPtr := tagPtr + RoundUp8(size);
    }
    r := None;
  }

  class MemoryMapIter {
    const memory: seq<byte>
    var window: Window

    ghost predicate Valid()
      reads this
    {
      window.end <= |memory| && window.entrySize >= ENTRY_LEN
    }

    constructor (memory: seq<byte>, window: Window)
      requires window.end <= |memory| && window.entrySize >= ENTRY_LEN
      ensures Valid() && this.memory == memory && this.window == window
    {
      this.memory := memory;
      this.window := window;
    }

    /** Yields the first remaining region, or nothing when none remains. */
    method Next() returns (r: Option<MemoryRegion>)
      requires Valid()
      modifies this
      ensures Valid()
      ensures var before := old(Remaining(memory, window));
        if before == [] then r.None? && window == old(window)
        else r == Some(before[0]) && Remaining(memory, window) == before[1..]
      ensures r.Some? ==> window.end - window.next < old(window.end - window.next)
      ensures r.Some? ==> old(window.next) < old(window.end)
    {
      if window.next + window.entrySize > window.end { return None; }
      r := Some(RegionAt(memory, window.next));
      window := window.(next := window.next + window.entrySize);
    }
  }

  // ---- What the parser finds, on any bytes ------------------------------------------

  /** Where the k-th tag from `p` on starts, by the tags' own sizes. */
  ghost function TagPos(memory: seq<byte>, p: nat, k: nat): nat
    decreases k
  {
    if k == 0 || p + 8 > |memory| then p
    else TagPos(memory, p + (ReadU32(memory, p + 4) + 7) / 8 * 8, k - 1)
  }

  /** A whole tag header that is neither the end tag's nor a memory map's. */
  ghost predicate Passed(memory: seq<byte>, p: nat, end: nat) {
    p + 8 <= end && p + 8 <= |memory| && ReadU32(memory, p) !in {0, 6} && ReadU32(memory, p + 4) >= 8
  }

  ghost predicate IsMap(memory: seq<byte>, p: nat, end: nat) {
    && p + 8 <= end && p + 12 <= |memory|
    && ReadU32(memory, p) == 6 && ReadU32(memory, p + 4) >= 8 && ReadU32(memory, p + 8) >= 24
  }

  /** The k-th tag is a memory map that can be used, and nothing before it stops the walk. */
  ghost predicate FoundAt(memory: seq<byte>, p: nat, end: nat, k: nat) {
    && (forall j | 0 <= j < k :: Passed(memory, TagPos(memory, p, j), end))
    && IsMap(memory, TagPos(memory, p, k), end)
  }

  lemma FoundLater(memory: seq<byte>, p: nat, end: nat, k: nat)
    requires Passed(memory, p, end)
    ensures FoundAt(memory, p, end, k + 1) <==> FoundAt(memory, p + (ReadU32(memory, p + 4) + 7) / 8 * 8, end, k)
  {
    hide ReadU32;
    var q := p + (ReadU32(memory, p + 4) + 7) / 8 * 8;
    assert forall j: nat :: TagPos(memory, p, j + 1) == TagPos(memory, q, j);
    if FoundAt(memory, p, end, k + 1) {
      forall j | 0 <= j < k ensures Passed(memory, TagPos(memory, q, j), end) {
        assert Passed(memory, TagPos(memory, p, j + 1), end);
      }
    }
    if FoundAt(memory, q, end, k) {
      forall j | 0 <= j < k + 1 ensures Passed(memory, TagPos(memory, p, j), end) {
        if j > 0 { assert Passed(memory, TagPos(memory, q, j - 1), end); }
      }
    }
  }

  lemma PassedFirst(memory: seq<byte>, p: nat, end: nat, k: nat)
    requires k > 0 && FoundAt(memory, p, end, k)
    ensures Passed(memory, p, end)
  {
    hide ReadU32, Passed;
    assert Passed(memory, TagPos(memory, p, 0), end);
  }

  /** The walk finds a window iff some tag is a usable memory map and all tags before it
      can be passed; then the window runs from behind that tag's 16 bytes to its end or
      the structure's, whichever comes first. */
  lemma {:induction false} FindMapExactly(memory: seq<byte>, p: nat, end: nat)
    requires end <= |memory| && Readable(memory, p, end)
    ensures FindMap(memory, p, end).Some? <==> exists k: nat :: FoundAt(memory, p, end, k)
    ensures forall k: nat | FoundAt(memory, p, end, k) ::
      var q := TagPos(memory, p, k);
      FindMap(memory, p, end) == Some(Window(q + 16, Min(q + ReadU32(memory, q + 4), end), ReadU32(memory, q + 8)))
    decreases end - p
  {
    hide ReadU32, FoundAt;
    if Passed(memory, p, end) {
      var q := p + (ReadU32(memory, p + 4) + 7) / 8 * 8;
      FindMapExactly(memory, q, end);
      assert !FoundAt(memory, p, end, 0) by { NotAMap(memory, p, end); }
      forall k: nat ensures FoundAt(memory, p, end, k + 1) <==> FoundAt(memory, q, end, k) {
        FoundLater(memory, p, end, k);
      }
      forall k: nat | FoundAt(memory, p, end, k)
        ensures k > 0 && FoundAt(memory, q, end, k - 1) && TagPos(memory, p, k) == TagPos(memory, q, k - 1)
      {
        assert k > 0;
        FoundLater(memory, p, end, k - 1);
      }
      if FindMap(memory, q, end).Some? {
        var k: nat :| FoundAt(memory, q, end, k);
        assert FoundAt(memory, p, end, k + 1);
      }
    } else {
      forall k: nat | FoundAt(memory, p, end, k) ensures k == 0 {
        if k > 0 { PassedFirst(memory, p, end, k); }
      }
      FoundHere(memory, p, end);
    }
  }

  lemma NotAMap(memory: seq<byte>, p: nat, end: nat)
    requires Passed(memory, p, end)
    ensures !FoundAt(memory, p, end, 0)
  {
  }

  lemma FoundHere(memory: seq<byte>, p: nat, end: nat)
    ensures FoundAt(memory, p, end, 0) <==> IsMap(memory, p, end)
  {
  }

  /** The iterator yields as many regions as whole strides fit. */
  lemma {:induction false} RemainingCount(memory: seq<byte>, w: Window)
    requires w.next <= w.end <= |memory| && w.entrySize >= ENTRY_LEN
    ensures w.next + |Remaining(memory, w)| * w.entrySize <= w.end < w.next + (|Remaining(memory, w)| + 1) * w.entrySize
    decreases w.end - w.next
  {
    hide RegionAt;
    if w.next + w.entrySize <= w.end {
      var v := w.(next := w.next + w.entrySize);
      RemainingCount(memory, v);
      NextStride(|Remaining(memory, v)|, w.entrySize);
      NextStride(|Remaining(memory, v)| + 1, w.entrySize);
    } else {
      NextStride(0, w.entrySize);
    }
  }

  lemma NextStride(n: nat, stride: nat)
    ensures (n + 1) * stride == n * stride + stride
  {
  }

  /** Each comes from its own stride: 8 bytes of base, 8 of length, 4 of type. */
  lemma {:induction false} RemainingAt(memory: seq<byte>, w: Window, k: nat)
    requires w.next <= w.end <= |memory| && w.entrySize >= ENTRY_LEN && k < |Remaining(memory, w)|
    ensures var p := w.next + k * w.entrySize;
      p + 24 <= w.end && Remaining(memory, w)[k] ==
        MemoryRegion(ReadU64(memory, p), ReadU64(memory, p + 8), ReadU32(memory, p + 16))
    decreases k
  {
    hide ReadU32, ReadU64;
    if k > 0 {
      RemainingAt(memory, w.(next := w.next + w.entrySize), k - 1);
      NextStride(k - 1, w.entrySize);
    }
  }

  // ---- The layout -----------------------------------------------------------------

  /** One map entry: base, length, kind and whatever fills it up to the tag's stride. */
  datatype MapEntry = MapEntry(region: MemoryRegion, filler: seq<byte>)

  datatype Tag =
    | MapTag(entrySize: nat, version: nat, entries: seq<MapEntry>, rest: seq<byte>)
    | OtherTag(typ: nat, payload: seq<byte>)

  function Le64(n: u64): (s: seq<byte>)
    ensures |s| == 8
  {
    Le32(n % U32) + Le32(n / U32)
  }

  function EntryBytes(e: MapEntry): (s: seq<byte>)
    ensures |s| == 20 + |e.filler|
  {
    Le64(e.region.base) + Le64(e.region.length) + Le32(e.region.kind) + e.filler
  }

  function EntriesBytes(entries: seq<MapEntry>): seq<byte> {
    if entries == [] then [] else EntryBytes(entries[0]) + EntriesBytes(entries[1..])
  }

  function Payload(tag: Tag): seq<byte> {
    match tag
    case MapTag(entrySize, version, entries, rest) => Le32(entrySize) + (Le32(version) + (EntriesBytes(entries) + rest))
    case OtherTag(_, payload) => payload
  }

  function TypeOf(tag: Tag): nat { if tag.MapTag? then TAG_TYPE_MEMORY_MAP else tag.typ }

  function SizeOf(tag: Tag): nat { HEADER_LEN + |Payload(tag)| }

  function TagBytes(tag: Tag): (s: seq<byte>)
    ensures |s| == RoundUp8(SizeOf(tag))
  {
    Le32(TypeOf(tag)) + (Le32(SizeOf(tag)) + (Payload(tag) + Zeros(RoundUp8(SizeOf(tag)) - SizeOf(tag))))
  }

  function TagsBytes(tags: seq<Tag>): seq<byte> {
    if tags == [] then Le32(TAG_TYPE_END) + Le32(HEADER_LEN) else TagBytes(tags[0]) + TagsBytes(tags[1..])
  }

  /** The whole structure: total size, a reserved word, the tags, the terminator. */
  function InfoBytes(tags: seq<Tag>): seq<byte> {
    Le32(8 + |TagsBytes(tags)|) + (Le32(0) + TagsBytes(tags))
  }

  predicate GoodTag(tag: Tag) {
    && SizeOf(tag) < U32 && TypeOf(tag) < U32
    && match tag
       case MapTag(entrySize, version, entries, rest) =>
         && ENTRY_LEN <= entrySize < U32 && version < U32 && |rest| < entrySize
         && (forall e | e in entries :: |e.filler| == entrySize - 20 && e.region.kind < U32)
       case OtherTag(typ, _) => typ != TAG_TYPE_END && typ != TAG_TYPE_MEMORY_MAP
  }

  ghost predicate GoodInfo(tags: seq<Tag>) {
    (forall t | t in tags :: GoodTag(t)) && 8 + |TagsBytes(tags)| < U32
  }

  function RegionsOf(entries: seq<MapEntry>): seq<MemoryRegion> {
    if entries == [] then [] else [entries[0].region] + RegionsOf(entries[1..])
  }

  /** The regions of the first memory-map tag. */
  function MapOf(tags: seq<Tag>): Option<seq<MemoryRegion>> {
    if tags == [] then None
    else if tags[0].MapTag? then Some(RegionsOf(tags[0].entries))
    else MapOf(tags[1..])
  }

  // ---- The layout in figures ----------------------------------------------------------

  /** Section 3.6.8 of the Multiboot2 specification: type 6, size, entry size and version,
      then the entries; padded to a multiple of 8. */
  lemma MapTagBytes(tag: Tag)
    requires GoodTag(tag) && tag.MapTag?
    ensures var s := TagBytes(tag);
      && |s| >= 16 + |EntriesBytes(tag.entries)|
      && |s| % 8 == 0 && SizeOf(tag) <= |s| < SizeOf(tag) + 8
      && SizeOf(tag) == 16 + |EntriesBytes(tag.entries)| + |tag.rest|
      && s[..4] == [6, 0, 0, 0] && Value(s[4..8]) == SizeOf(tag) && Value(s[8..12]) == tag.entrySize
      && s[16..16 + |EntriesBytes(tag.entries)|] == EntriesBytes(tag.entries)
  {
    hide EntriesBytes, Value, Le32;
    var s, body := TagBytes(tag), EntriesBytes(tag.entries);
    SixBytes();
    assert s[..4] == Le32(6);
    assert s[4..8] == Le32(SizeOf(tag));
    assert s[8..12] == Le32(tag.entrySize);
    assert s[16..16 + |body|] == body;
    LittleEndianWrites(SizeOf(tag));
    LittleEndianWrites(tag.entrySize);
  }

  lemma SixBytes()
    ensures Le32(6) == [6, 0, 0, 0]
  {
  }

  /** The last tag: type 0, size 8. */
  lemma EndTagBytes()
    ensures TagsBytes([]) == [0, 0, 0, 0, 8, 0, 0, 0]
  {
  }

  /** Every other tag has another type than 6 and 0. */
  lemma OtherTagBytes(tag: Tag)
    requires GoodTag(tag) && tag.OtherTag?
    ensures var s := TagBytes(tag);
      && |s| % 8 == 0 && 8 + |tag.payload| <= |s| < 16 + |tag.payload|
      && Value(s[..4]) == tag.typ != 6 && tag.typ != 0 && Value(s[4..8]) == 8 + |tag.payload|
  {
    hide Value, Le32;
    var s := TagBytes(tag);
    assert s[..4] == Le32(tag.typ);
    assert s[4..8] == Le32(SizeOf(tag));
    LittleEndianWrites(tag.typ);
    LittleEndianWrites(SizeOf(tag));
  }

  /** An entry: 8 bytes of base, 8 of length, 4 of type. */
  lemma EntryLayout(e: MapEntry)
    requires e.region.kind < U32
    ensures var s := EntryBytes(e);
      && Value(s[..4]) + 0x1_0000_0000 * Value(s[4..8]) == e.region.base
      && Value(s[8..12]) + 0x1_0000_0000 * Value(s[12..16]) == e.region.length
      && Value(s[16..20]) == e.region.kind
  {
    hide Value, Le32;
    var s, base, length := EntryBytes(e), e.region.base, e.region.length;
    assert s[..4] == Le32(base % U32) && s[4..8] == Le32(base / U32);
    assert s[8..12] == Le32(length % U32) && s[12..16] == Le32(length / U32);
    assert s[16..20] == Le32(e.region.kind);
    LittleEndianWrites(base % U32);
    LittleEndianWrites(base / U32);
    LittleEndianWrites(length % U32);
    LittleEndianWrites(length / U32);
    LittleEndianWrites(e.region.kind);
  }

  // ---- The parser reads the layout back ---------------------------------------------

  lemma ReadLe64(memory: seq<byte>, p: nat, n: u64)
    requires Holds(memory, p, Le64(n))
    ensures ReadU64(memory, p) == n
  {
    hide ReadU32, Le32;
    HoldsSplit(memory, p, Le32(n % U32), Le32(n / U32));
    ReadLe32(memory, p, n % U32);
    ReadLe32(memory, p + 4, n / U32);
  }

  lemma EntryReadsBack(memory: seq<byte>, p: nat, e: MapEntry)
    requires Holds(memory, p, EntryBytes(e)) && |e.filler| >= 4 && e.region.kind < U32
    ensures RegionAt(memory, p) == e.region
  {
    hide ReadU32, ReadU64, Le32, Le64;
    var a, b, c := Le64(e.region.base), Le64(e.region.length), Le32(e.region.kind);
    HoldsSplit(memory, p, a + b + c, e.filler);
    HoldsSplit(memory, p, a + b, c);
    HoldsSplit(memory, p, a, b);
    ReadLe64(memory, p, e.region.base);
    ReadLe64(memory, p + 8, e.region.length);
    ReadLe32(memory, p + 16, e.region.kind);
  }

  lemma {:induction false} EntriesReadBack(memory: seq<byte>, w: Window, entries: seq<MapEntry>, rest: seq<byte>)
    requires Holds(memory, w.next, EntriesBytes(entries) + rest)
    requires w.end == w.next + |EntriesBytes(entries)| + |rest| && |rest| < w.entrySize && ENTRY_LEN <= w.entrySize
    requires forall e | e in entries :: |e.filler| == w.entrySize - 20 && e.region.kind < U32
    ensures Remaining(memory, w) == RegionsOf(entries)
    decreases |entries|
  {
    hide RegionAt, EntryBytes;
    if entries != [] {
      var e := entries[0];
      assert EntriesBytes(entries) + rest == EntryBytes(e) + (EntriesBytes(entries[1..]) + rest);
      HoldsSplit(memory, w.next, EntryBytes(e), EntriesBytes(entries[1..]) + rest);
      EntryReadsBack(memory, w.next, e);
      EntriesReadBack(memory, w.(next := w.next + w.entrySize), entries[1..], rest);
    }
  }

  /** What the whole parse yields: the regions of the tag found, if any. */
  function Parsed(memory: seq<byte>, p: nat, end: nat): Option<seq<MemoryRegion>>
    requires end <= |memory| && Readable(memory, p, end)
  {
    var w := FindMap(memory, p, end);
    if w.None? then None else Some(Remaining(memory, w.value))
  }

  lemma MapTagReadsBack(memory: seq<byte>, p: nat, end: nat, tag: Tag)
    requires Holds(memory, p, TagBytes(tag)) && GoodTag(tag) && tag.MapTag?
    requires p + |TagBytes(tag)| <= end <= |memory|
    ensures Readable(memory, p, end)
    ensures Parsed(memory, p, end) == Some(RegionsOf(tag.entries))
  {
    hide ReadU32, Le32, EntriesBytes, Remaining;
    var pad := Zeros(RoundUp8(SizeOf(tag)) - SizeOf(tag));
    HoldsSplit(memory, p, Le32(TypeOf(tag)), Le32(SizeOf(tag)) + (Payload(tag) + pad));
    HoldsSplit(memory, p + 4, Le32(SizeOf(tag)), Payload(tag) + pad);
    HoldsSplit(memory, p + 8, Payload(tag), pad);
    var body := EntriesBytes(tag.entries) + tag.rest;
    HoldsSplit(memory, p + 8, Le32(tag.entrySize), Le32(tag.version) + body);
    HoldsSplit(memory, p + 12, Le32(tag.version), body);
    ReadLe32(memory, p, TypeOf(tag));
    ReadLe32(memory, p + 4, SizeOf(tag));
    ReadLe32(memory, p + 8, tag.entrySize);
    EntriesReadBack(memory, Window(p + 16, p + SizeOf(tag), tag.entrySize), tag.entries, tag.rest);
  }

  lemma OtherTagSkipped(memory: seq<byte>, p: nat, end: nat, tag: Tag)
    requires Holds(memory, p, TagBytes(tag)) && GoodTag(tag) && tag.OtherTag?
    requires p + |TagBytes(tag)| <= end <= |memory|
    ensures Readable(memory, p, end) <==> Readable(memory, p + |TagBytes(tag)|, end)
    ensures Readable(memory, p, end) ==> FindMap(memory, p, end) == FindMap(memory, p + |TagBytes(tag)|, end)
  {
    hide ReadU32, Le32;
    var pad := Zeros(RoundUp8(SizeOf(tag)) - SizeOf(tag));
    HoldsSplit(memory, p, Le32(TypeOf(tag)), Le32(SizeOf(tag)) + (Payload(tag) + pad));
    HoldsSplit(memory, p + 4, Le32(SizeOf(tag)), Payload(tag) + pad);
    ReadLe32(memory, p, TypeOf(tag));
    ReadLe32(memory, p + 4, SizeOf(tag));
  }

  lemma {:induction false} TagsReadBack(memory: seq<byte>, p: nat, end: nat, tags: seq<Tag>)
    requires Holds(memory, p, TagsBytes(tags)) && p + |TagsBytes(tags)| == end <= |memory|
    requires forall t | t in tags :: GoodTag(t)
    ensures Readable(memory, p, end)
    ensures Parsed(memory, p, end) == MapOf(tags)
    decreases |tags|
  {
    hide ReadU32, Le32, TagBytes, Remaining, RegionsOf;
    if tags == [] {
      HoldsSplit(memory, p, Le32(TAG_TYPE_END), Le32(HEADER_LEN));
      ReadLe32(memory, p, TAG_TYPE_END);
    } else {
      HoldsSplit(memory, p, TagBytes(tags[0]), TagsBytes(tags[1..]));
      if tags[0].MapTag? {
        MapTagReadsBack(memory, p, end, tags[0]);
      } else {
        OtherTagSkipped(memory, p, end, tags[0]);
        TagsReadBack(memory, p + |TagBytes(tags[0])|, end, tags[1..]);
      }
    }
  }

  /** For every tag list so laid out, wherever it lies, the parser yields exactly the
      regions of the first memory-map tag, in order, and nothing without such a tag. */
  lemma ParserReadsLayout(memory: seq<byte>, addr: nat, tags: seq<Tag>)
    requires Holds(memory, addr, InfoBytes(tags)) && GoodInfo(tags)
    requires |memory| <= BOOT_MAP_LIMIT
    ensures Mapped(memory, addr) && ReadU32(memory, addr) == |InfoBytes(tags)|
    ensures Parsed(memory, addr + 8, addr + |InfoBytes(tags)|) == MapOf(tags)
  {
    hide ReadU32, Le32, TagsBytes, Parsed;
    var total := 8 + |TagsBytes(tags)|;
    HoldsSplit(memory, addr, Le32(total), Le32(0) + TagsBytes(tags));
    HoldsSplit(memory, addr + 4, Le32(0), TagsBytes(tags));
    ReadLe32(memory, addr, total);
    TagsReadBack(memory, addr + 8, addr + total, tags);
  }
}
