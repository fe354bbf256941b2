/** ZranFS: the reader of src/fs.rs. An image is a byte string; `mount` validates the
    whole directory tree, and the path readers then index it without further checks.
    Every array access below carries its bound as a proof obligation, so a reader
    that could index outside the image would not verify. */
module Fs {
  import opened Common
  import opened LittleEndian
  import opened Paths

  type Image = seq<byte>

  const MAGIC: seq<byte> := [90, 82, 70, 83]
  const VERSION := 3
  const SUPERBLOCK_LEN := 16
  const SB_COUNT := 0x06
  const SB_TOTAL := 0x08
  const SB_DATA_END := 0x0C
  const DIRENT_LEN := 32
  const NAME_LEN := 20
  const ENT_OFFSET := 0x14
  const ENT_LENGTH := 0x18
  const ENT_KIND := 0x1C
  const KIND_FILE := 0
  const KIND_DIR := 1
  const MAX_DEPTH := 32

  datatype FsError =
    | BadMagic | UnsupportedVersion | Truncated | SizeMismatch | EntryOutOfBounds
    | ExtentEscapesData | BadDataEnd | BadDirLength | DirNotForward | BadKind | TooDeep
    | NotFound | NotADirectory | IsADirectory

  datatype Node = File(offset: nat, length: nat) | Dir(offset: nat, length: nat)

  datatype DirEntry = DirEntry(name: Name, offset: nat, length: nat, isDir: bool)

  datatype Fs = Fs(image: Image, fileCount: nat)

  /** The three readers: `mount`, `mount_loose` and `mount_tier2`. */
  datatype Reader = Strict | Loose | Tier2

  /** The raw fields of the directory entry at `base`. */
  datatype Entry = Entry(name: Name, offset: nat, length: nat, kind: nat) {
    function End(): nat { offset + length }
  }

  /** What a validation run is limited by: the extent ceiling and the depth cap. */
  datatype Rules = Rules(ceiling: int, maxDepth: int)

  datatype Table = Table(offset: nat, length: nat)

  /** The outcome of validating one table, or the rest of one: the error if any, the
      final high-water mark, the non-empty tables scanned and the number of calls. */
  datatype Walk = Walk(error: Option<FsError>, highWater: nat, tables: seq<Table>, calls: nat)

  /** The bytes before the first NUL, or all of them. */
  function EntryName(raw: seq<byte>): Name {
    if raw == [] || raw[0] == 0 then [] else [raw[0]] + EntryName(raw[1..])
  }

  function EntryAt(image: Image, base: nat): Entry
    requires base + DIRENT_LEN <= |image|
  {
    Entry(EntryName(image[base..base + NAME_LEN]), ReadU32(image, base + ENT_OFFSET),
          ReadU32(image, base + ENT_LENGTH), ReadU32(image, base + ENT_KIND))
  }

  /** The i-th entry of the table at `off`. */
  function Nth(image: Image, off: nat, i: nat): Entry
    requires off + DIRENT_LEN * (i + 1) <= |image|
  {
    EntryAt(image, off + DIRENT_LEN * i)
  }

  /** Why an entry is rejected before its kind is looked at. */
  function ExtentError(image: Image, e: Entry, ceiling: int): Option<FsError> {
    if e.End() > |image| then Some(EntryOutOfBounds)
    else if e.End() > ceiling then Some(ExtentEscapesData)
    else None
  }

  /** Why a table is rejected before its entries are looked at. */
  function TableError(image: Image, off: nat, len: nat, highWater: nat, depth: nat, rules: Rules): Option<FsError> {
    if depth > rules.maxDepth then Some(TooDeep)
    else if off < highWater then Some(DirNotForward)
    else if len % DIRENT_LEN != 0 then Some(BadDirLength)
    else if off + len > |image| then Some(EntryOutOfBounds)
    else None
  }

  /** What `validate_dir` computes. The measure is the unread rest of the image above
      the high-water mark; the depth cap plays no part in termination. */
  function WalkTable(image: Image, off: nat, len: nat, highWater: nat, depth: nat, rules: Rules): (w: Walk)
    requires highWater <= |image|
    ensures highWater <= w.highWater <= |image|
    decreases |image| - highWater, 0, 0
  {
    var error := TableError(image, off, len, highWater, depth, rules);
    if error.Some? then Walk(error, highWater, [], 1)
    else if len == 0 then Walk(None, off, [], 1)
    else
      var w := WalkEntries(image, off, 0, len / DIRENT_LEN, off + len, depth, rules);
      Walk(w.error, w.highWater, [Table(off, len)] + w.tables, 1 + w.calls)
  }

  /** What its loop computes from the i-th entry on. */
  function WalkEntries(image: Image, off: nat, i: nat, n: nat, highWater: nat, depth: nat, rules: Rules): (w: Walk)
    requires i <= n && off + DIRENT_LEN * n <= |image| && highWater <= |image|
    ensures highWater <= w.highWater <= |image|
    decreases |image| - highWater, 1, n - i
  {
    if i == n then Walk(None, highWater, [], 0)
    else
      var e := Nth(image, off, i);
      var error := ExtentError(image, e, rules.ceiling);
      if error.Some? then Walk(error, highWater, [], 0)
      else if e.kind == KIND_FILE then WalkEntries(image, off, i + 1, n, highWater, depth, rules)
      else if e.kind == KIND_DIR then
        var c := WalkTable(image, e.offset, e.length, highWater, depth + 1, rules);
        if c.error.Some? then c
        else
          var rest := WalkEntries(image, off, i + 1, n, c.highWater, depth, rules);
          Walk(rest.error, rest.highWater, c.tables + rest.tables, c.calls + rest.calls)
      else Walk(Some(BadKind), highWater, [], 0)
  }

  /** `validate_dir`: recursion over subdirectories, a loop over entries, and the
      high-water mark threaded through both. `calls` counts the calls made, this one
      included, `tables` lists the non-empty tables they scan, and `deepest` is the depth
      of the deepest: one more than the cap at the most. */
  method ValidateDir(image: Image, off: nat, len: nat, highWater: nat, depth: nat, rules: Rules)
    returns (error: Option<FsError>, mark: nat, ghost tables: seq<Table>, ghost calls: nat, ghost deepest: nat)
    requires highWater <= |image|
    ensures Walk(error, mark, tables, calls) == WalkTable(image, off, len, highWater, depth, rules)
    ensures depth <= deepest <= Max(depth, rules.maxDepth + 1)
    decreases |image| - highWater
  {
    hide EntryAt, ExtentError, ReadU32;
    mark, tables, calls, deepest := highWater, [], 1, depth;
    if depth > rules.maxDepth { return Some(TooDeep), mark, tables, calls, deepest; }
    if off < highWater { return Some(DirNotForward), mark, tables, calls, deepest; }
    if len % DIRENT_LEN != 0 { return Some(BadDirLength), mark, tables, calls, deepest; }
    if off + len > |image| { return Some(EntryOutOfBounds), mark, tables, calls, deepest; }
    mark := Max(mark, off + len);
    if len > 0 { tables := [Table(off, len)]; }
    var n := len / DIRENT_LEN;
    ghost var first := tables;
    ghost var all := WalkEntries(image, off, 0, n, mark, depth, rules);
    for i := 0 to n
      invariant off + len <= mark <= |image| && depth <= deepest <= rules.maxDepth + 1
      invariant Continues(all, first, tables, calls, WalkEntries(image, off, i, n, mark, depth, rules))
    {
      EntryFields(image, off, i);
      var base := off + i * DIRENT_LEN;
      var cOff := ReadU32(image, base + ENT_OFFSET);
      var cLen := ReadU32(image, base + ENT_LENGTH);
      EntryChecks(image, off, i, rules.ceiling);
      if cOff + cLen > |image| { return Some(EntryOutOfBounds), mark, tables, calls, deepest; }
      if cOff + cLen > rules.ceiling { return Some(ExtentEscapesData), mark, tables, calls, deepest; }
      var kind := ReadU32(image, base + ENT_KIND);
      if kind == KIND_DIR {
        ghost var childTables, childCalls, childDeepest;
        error, mark, childTables, childCalls, childDeepest := ValidateDir(image, cOff, cLen, mark, depth + 1, rules);
        ghost var before := tables;
        tables, calls, deepest := tables + childTables, calls + childCalls, Max(deepest, childDeepest);
        if error.Some? { return; }
        Regroup(before, childTables, WalkEntries(image, off, i + 1, n, mark, depth, rules).tables);
      } else if kind != KIND_FILE {
        return Some(BadKind), mark, tables, calls, deepest;
      }
    }
    error := None;
  }

  /** What the entries still to be scanned add to what has been done makes the whole. */
  ghost predicate Continues(all: Walk, first: seq<Table>, tables: seq<Table>, calls: nat, rest: Walk) {
    && all.error == rest.error && all.highWater == rest.highWater
    && first + all.tables == tables + rest.tables && 1 + all.calls == calls + rest.calls
  }

  lemma Regroup<T>(a: seq<T>, b: seq<T>, c: seq<T>)
    ensures a + (b + c) == a + b + c
  {
  }

  lemma EntryFields(image: Image, off: nat, i: nat)
    requires off + DIRENT_LEN * (i + 1) <= |image|
    ensures var base, e := off + i * DIRENT_LEN, Nth(image, off, i);
      && e.offset == ReadU32(image, base + ENT_OFFSET) && e.length == ReadU32(image, base + ENT_LENGTH)
      && e.kind == ReadU32(image, base + ENT_KIND)
  {
    hide ReadU32;
  }

  lemma EntryChecks(image: Image, off: nat, i: nat, ceiling: int)
    requires off + DIRENT_LEN * (i + 1) <= |image|
    ensures var e := Nth(image, off, i);
      ExtentError(image, e, ceiling) ==
        if e.offset + e.length > |image| then Some(EntryOutOfBounds)
        else if e.offset + e.length > ceiling then Some(ExtentEscapesData)
        else None
  {
    hide EntryAt;
  }

  /** The superblock fields. */
  function DataEnd(image: Image): nat requires SUPERBLOCK_LEN <= |image| { ReadU32(image, SB_DATA_END) }

  function RootLen(image: Image): nat requires SUPERBLOCK_LEN <= |image| { ReadU16(image, SB_COUNT) * DIRENT_LEN }

  function RootEnd(image: Image): nat requires SUPERBLOCK_LEN <= |image| { SUPERBLOCK_LEN + RootLen(image) }

  function Ceiling(image: Image, reader: Reader): nat
    requires SUPERBLOCK_LEN <= |image|
  {
    if reader == Strict then DataEnd(image) else |image|
  }

  /** The checks that `mount_inner` makes before it looks at the tree. */
  function HeaderError(image: Image, reader: Reader): Option<FsError> {
    if |image| < SUPERBLOCK_LEN then Some(Truncated)
    else if image[..4] != MAGIC then Some(BadMagic)
    else if ReadU16(image, 4) != VERSION then Some(UnsupportedVersion)
    else if reader == Tier2 && ReadU32(image, SB_TOTAL) > |image| then Some(SizeMismatch)
    else if reader != Tier2 && ReadU32(image, SB_TOTAL) != |image| then Some(SizeMismatch)
    else if DataEnd(image) < SUPERBLOCK_LEN || DataEnd(image) > |image| then Some(BadDataEnd)
    else if RootEnd(image) > |image| then Some(Truncated)
    else None
  }

  /** The tree walk that `mount_inner` starts. */
  function RootWalk(image: Image, reader: Reader): Walk
    requires SUPERBLOCK_LEN <= |image|
  {
    WalkTable(image, SUPERBLOCK_LEN, RootLen(image), SUPERBLOCK_LEN, 0, Rules(Ceiling(image, reader), MAX_DEPTH))
  }

  function Mount(image: Image, reader: Reader): Result<Fs, FsError> {
    var header := HeaderError(image, reader);
    if header.Some? then Err(header.value)
    else
      var w := RootWalk(image, reader);
      if w.error.Some? then Err(w.error.value) else Ok(Fs(image, ReadU16(image, SB_COUNT)))
  }

  method MountInner(image: Image, confine: bool, trustDeclaredSize: bool)
    returns (r: Result<Fs, FsError>, ghost deepest: nat)
    requires confine ==> !trustDeclaredSize
    ensures r == Mount(image, if confine then Strict else if trustDeclaredSize then Tier2 else Loose)
    ensures deepest <= 33
  {
    deepest := 0;
    if |image| < SUPERBLOCK_LEN { return Err(Truncated), deepest; }
    if image[..4] != MAGIC { return Err(BadMagic), deepest; }
    if ReadU16(image, 4) != VERSION { return Err(UnsupportedVersion), deepest; }
    var declared := ReadU32(image, SB_TOTAL);
    if trustDeclaredSize {
      if declared > |image| { return Err(SizeMismatch), deepest; }
    } else if declared != |image| {
      return Err(SizeMismatch), deepest;
    }
    var dataEnd := ReadU32(image, SB_DATA_END);
    if dataEnd < SUPERBLOCK_LEN || dataEnd > |image| { return Err(BadDataEnd), deepest; }
    var fileCount := ReadU16(image, SB_COUNT);
    var dirBytes := fileCount * DIRENT_LEN;
    if SUPERBLOCK_LEN + dirBytes > |image| { return Err(Truncated), deepest; }
    var ceiling := if confine then dataEnd else |image|;
    var error, _, _, _, depths := ValidateDir(image, SUPERBLOCK_LEN, dirBytes, SUPERBLOCK_LEN, 0, Rules(ceiling, MAX_DEPTH));
    deepest := depths;
    if error.Some? { return Err(error.value), deepest; }
    r := Ok(Fs(image, fileCount));
  }

  /** A table all of whose entries, at every depth, lie inside the image, with each
      subdirectory's table after its parent's: what validation leaves behind. */
  ghost predicate TreeOk(image: Image, off: nat, len: nat)
    decreases |image| - off
  {
    && off + len <= |image| && len % DIRENT_LEN == 0
    && forall i | 0 <= i < len / DIRENT_LEN :: ChildOk(image, off, len, Nth(image, off, i))
  }

  ghost predicate ChildOk(image: Image, off: nat, len: nat, e: Entry)
    requires off < off + len <= |image|
    decreases |image| - off, 0
  {
    && e.End() <= |image|
    && (e.kind == KIND_FILE || e.kind == KIND_DIR)
    && (e.kind == KIND_DIR ==> off + len <= e.offset && TreeOk(image, e.offset, e.length))
  }

  ghost predicate NodeOk(image: Image, node: Node) {
    match node
    case File(offset, length) => offset + length <= |image|
    case Dir(offset, length) => TreeOk(image, offset, length)
  }

  function Root(fs: Fs): Node { Dir(SUPERBLOCK_LEN, fs.fileCount * DIRENT_LEN) }

  /** An `Fs` that a successful mount can have produced. */
  ghost predicate Mounted(fs: Fs) { NodeOk(fs.image, Root(fs)) }

  /** The first entry from the i-th on that carries `name`. A kind other than
      directory is taken for a file. */
  function FindFrom(image: Image, off: nat, i: nat, n: nat, name: Name): Option<Node>
    requires i <= n && off + DIRENT_LEN * n <= |image|
    decreases n - i
  {
    if i == n then None
    else
      var e := Nth(image, off, i);
      if e.name != name then FindFrom(image, off, i + 1, n, name)
      else if e.kind == KIND_DIR then Some(Dir(e.offset, e.length))
      else Some(File(e.offset, e.length))
  }

  lemma {:induction false} FindFromOk(image: Image, off: nat, len: nat, i: nat, name: Name)
    requires TreeOk(image, off, len) && i <= len / DIRENT_LEN
    ensures var r := FindFrom(image, off, i, len / DIRENT_LEN, name); r.Some? ==> NodeOk(image, r.value)
    decreases len / DIRENT_LEN - i
  {
    if i < len / DIRENT_LEN {
      assert ChildOk(image, off, len, Nth(image, off, i));
      FindFromOk(image, off, len, i + 1, name);
    }
  }

  method FindChild(image: Image, off: nat, len: nat, name: Name) returns (r: Option<Node>)
    requires TreeOk(image, off, len)
    ensures r == FindFrom(image, off, 0, len / DIRENT_LEN, name)
    ensures r.Some? ==> NodeOk(image, r.value)
  {
    FindFromOk(image, off, len, 0, name);
    for i := 0 to len / DIRENT_LEN
      invariant FindFrom(image, off, 0, len / DIRENT_LEN, name) == FindFrom(image, off, i, len / DIRENT_LEN, name)
    {
      var base := off + i * DIRENT_LEN;
      if EntryName(image[base..base + NAME_LEN]) == name {
        var offset := ReadU32(image, base + ENT_OFFSET);
        var length := ReadU32(image, base + ENT_LENGTH);
        if ReadU32(image, base + ENT_KIND) == KIND_DIR { return Some(Dir(offset, length)); }
        return Some(File(offset, length));
      }
    }
    r := None;
  }

  /** Descend from `node` through the path components; empty ones are skipped. */
  function Descend(image: Image, node: Node, comps: seq<Name>): (r: Result<Node, FsError>)
    requires NodeOk(image, node)
    ensures r.Ok? ==> NodeOk(image, r.value)
    decreases |comps|
  {
    if comps == [] then Ok(node)
    else if comps[0] == [] then Descend(image, node, comps[1..])
    else if node.File? then Err(NotADirectory)
    else
      FindFromOk(image, node.offset, node.length, 0, comps[0]);
      var child := FindFrom(image, node.offset, 0, node.length / DIRENT_LEN, comps[0]);
      if child.None? then Err(NotFound) else Descend(image, child.value, comps[1..])
  }

  function Resolve(fs: Fs, path: seq<byte>): (r: Result<Node, FsError>)
    requires Mounted(fs)
    ensures r.Ok? ==> NodeOk(fs.image, r.value)
  {
    Descend(fs.image, Root(fs), Split(path))
  }

  method ResolvePath(fs: Fs, path: seq<byte>) returns (r: Result<Node, FsError>)
    requires Mounted(fs)
    ensures r == Resolve(fs, path)
  {
    var comps := Split(path);
    var node := Root(fs);
    for k := 0 to |comps|
      invariant NodeOk(fs.image, node)
      invariant Descend(fs.image, Root(fs), comps) == Descend(fs.image, node, comps[k..])
    {
      assert comps[k..][1..] == comps[k + 1..];
      if comps[k] != [] {
        if node.File? { return Err(NotADirectory); }
        var child := FindChild(fs.image, node.offset, node.length, comps[k]);
        if child.None? { return Err(NotFound); }
        node := child.value;
      }
    }
    assert comps[|comps|..] == [];
    r := Ok(node);
  }

  function Listing(image: Image, off: nat, n: nat): (entries: seq<DirEntry>)
    requires off + DIRENT_LEN * n <= |image|
    ensures |entries| == n
    ensures forall i | 0 <= i < n :: var e := Nth(image, off, i);
      entries[i] == DirEntry(e.name, e.offset, e.length, e.kind == KIND_DIR)
  {
    seq(n, i requires 0 <= i < n =>
      var e := Nth(image, off, i); DirEntry(e.name, e.offset, e.length, e.kind == KIND_DIR))
  }

  function ListDir(fs: Fs, path: seq<byte>): Result<seq<DirEntry>, FsError>
    requires Mounted(fs)
  {
    match Resolve(fs, path)
    case Ok(Dir(off, len)) => Ok(Listing(fs.image, off, len / DIRENT_LEN))
    case Ok(File(_, _)) => Err(NotADirectory)
    case Err(e) => Err(e)
  }

  function ReadPath(fs: Fs, path: seq<byte>): Result<seq<byte>, FsError>
    requires Mounted(fs)
  {
    match Resolve(fs, path)
    case Ok(File(off, len)) => Ok(fs.image[off..off + len])
    case Ok(Dir(_, _)) => Err(IsADirectory)
    case Err(e) => Err(e)
  }
}
