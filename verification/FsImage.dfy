/** The writer of src/fs.rs, with its two file lists and its hidden bytes as
    parameters, and the round trip through the strict reader. The writer shares only
    the format's constants with the reader. */
module FsImage {
  import opened Common
  import opened LittleEndian
  import opened Paths
  import opened Fs
  import opened FsValidation
  import opened FsConfinement

  datatype FileSpec = FileSpec(name: Name, data: seq<byte>)

  /** "docs" */
  const DOCS: Name := [100, 111, 99, 115]

  /** A name cut or NUL-padded to the width of its field. */
  function NameField(name: Name): (s: seq<byte>)
    ensures |s| == NAME_LEN
  {
    var take := Min(|name|, NAME_LEN);
    name[..take] + Zeros(NAME_LEN - take)
  }

  function EntryBytes(name: Name, offset: nat, length: nat, kind: nat): (s: seq<byte>)
    ensures |s| == DIRENT_LEN
  {
    NameField(name) + Le32(offset) + Le32(length) + Le32(kind)
  }

  function DataLen(files: seq<FileSpec>): nat {
    if files == [] then 0 else |files[0].data| + DataLen(files[1..])
  }

  /** The file entries of one table; the data offsets accumulate from `cursor`. */
  function TableBytes(files: seq<FileSpec>, cursor: nat): (s: seq<byte>)
    ensures |s| == DIRENT_LEN * |files|
  {
    if files == [] then []
    else EntryBytes(files[0].name, cursor, |files[0].data|, KIND_FILE)
         + TableBytes(files[1..], cursor + |files[0].data|)
  }

  function DataBytes(files: seq<FileSpec>): (s: seq<byte>)
    ensures |s| == DataLen(files)
  {
    if files == [] then [] else files[0].data + DataBytes(files[1..])
  }

  function DocsTableOff(root: seq<FileSpec>): nat { SUPERBLOCK_LEN + DIRENT_LEN * (|root| + 1) }

  function DataOff(root: seq<FileSpec>, docs: seq<FileSpec>): nat { DocsTableOff(root) + DIRENT_LEN * |docs| }

  function DataStop(root: seq<FileSpec>, docs: seq<FileSpec>): nat {
    DataOff(root, docs) + DataLen(root) + DataLen(docs)
  }

  function Superblock(count: nat, total: nat, dataEnd: nat): (s: seq<byte>)
    ensures |s| == SUPERBLOCK_LEN
  {
    MAGIC + Le16(VERSION) + Le16(count) + Le32(total) + Le32(dataEnd)
  }

  /** The whole disk: superblock, root table, docs table, data, hidden bytes. */
  function Disk(root: seq<FileSpec>, docs: seq<FileSpec>, secret: seq<byte>): (img: Image)
    ensures |img| == DataStop(root, docs) + |secret|
  {
    Superblock(|root| + 1, DataStop(root, docs) + |secret|, DataStop(root, docs))
    + TableBytes(root, DataOff(root, docs))
    + EntryBytes(DOCS, DocsTableOff(root), DIRENT_LEN * |docs|, KIND_DIR)
    + TableBytes(docs, DataOff(root, docs) + DataLen(root))
    + DataBytes(root)
    + DataBytes(docs)
    + secret
  }

  lemma {:induction false} DataLenSnoc(files: seq<FileSpec>, k: nat)
    requires k < |files|
    ensures DataLen(files[..k + 1]) == DataLen(files[..k]) + |files[k].data|
    ensures DataLen(files[..k + 1]) <= DataLen(files)
  {
    if k > 0 {
      DataLenSnoc(files[1..], k - 1);
      assert files[..k + 1][1..] == files[1..][..k] && files[..k][1..] == files[1..][..k - 1];
    } else {
      assert files[..1][1..] == [];
    }
  }

  /** One table's file entries appended in turn. */
  method WriteTable(img: Image, files: seq<FileSpec>, start: nat) returns (r: Image, cursor: nat)
    ensures r == img + TableBytes(files, start) && cursor == start + DataLen(files)
  {
    hide EntryBytes;
    r, cursor := img, start;
    for k := 0 to |files|
      invariant r + TableBytes(files[k..], cursor) == img + TableBytes(files, start)
      invariant cursor + DataLen(files[k..]) == start + DataLen(files)
    {
      var f := files[k];
      assert files[k..][1..] == files[k + 1..];
      ghost var before := r;
      r := WriteEntry(r, f.name, cursor, |f.data|, KIND_FILE);
      assert before + TableBytes(files[k..], cursor) == r + TableBytes(files[k + 1..], cursor + |f.data|);
      cursor := cursor + |f.data|;
    }
    assert files[|files|..] == [];
  }

  method WriteEntry(img: Image, name: Name, offset: nat, length: nat, kind: nat) returns (r: Image)
    ensures r == img + EntryBytes(name, offset, length, kind)
  {
    var take := Min(|name|, NAME_LEN);
    r := img + (name[..take] + Zeros(NAME_LEN - take));
    r := r + Le32(offset);
    r := r + Le32(length);
    r := r + Le32(kind);
  }

  method WriteData(img: Image, files: seq<FileSpec>) returns (r: Image)
    ensures r == img + DataBytes(files)
  {
    r := img;
    for k := 0 to |files|
      invariant r + DataBytes(files[k..]) == img + DataBytes(files)
    {
      assert files[k..][1..] == files[k + 1..];
      assert r + DataBytes(files[k..]) == (r + files[k].data) + DataBytes(files[k + 1..]);
      r := r + files[k].data;
    }
    assert files[|files|..] == [];
  }

  /** `boot_image`. */
  method BootImage(root: seq<FileSpec>, docs: seq<FileSpec>, secret: seq<byte>) returns (img: Image)
    ensures img == Disk(root, docs, secret)
  {
    hide EntryBytes, TableBytes, DataBytes, Le16, Le32, DataLen;
    var docsTableOff := SUPERBLOCK_LEN + (|root| + 1) * DIRENT_LEN;
    var dataOff := docsTableOff + |docs| * DIRENT_LEN;
    var dataEnd := dataOff + DataLen(root) + DataLen(docs);
    img := MAGIC + Le16(VERSION);
    img := img + Le16(|root| + 1);
    img := img + Le32(dataEnd + |secret|);
    img := img + Le32(dataEnd);
    var cursor: nat;
    img, cursor := WriteTable(img, root, dataOff);
    img := WriteEntry(img, DOCS, docsTableOff, |docs| * DIRENT_LEN, KIND_DIR);
    img, cursor := WriteTable(img, docs, cursor);
    img := WriteData(img, root);
    img := WriteData(img, docs);
    img := img + secret;
  }

  // ---- Reading the pieces back -----------------------------------------------

  /** Names the format can carry. */
  predicate GoodName(name: Name) {
    0 < |name| <= NAME_LEN && 0 !in name && SLASH !in name
  }

  predicate Distinct(files: seq<FileSpec>) {
    forall j, k | 0 <= j < k < |files| :: files[j].name != files[k].name
  }

  predicate GoodFiles(files: seq<FileSpec>) {
    Distinct(files) && forall f | f in files :: GoodName(f.name)
  }

  /** What a caller of the writer has to respect. */
  predicate Writable(root: seq<FileSpec>, docs: seq<FileSpec>, secret: seq<byte>) {
    && GoodFiles(root) && GoodFiles(docs)
    && (forall f | f in root :: f.name != DOCS)
    && |root| + 1 < U16
    && DataStop(root, docs) + |secret| < U32
  }

  lemma {:induction false} NameReadsBack(name: Name, n: nat)
    requires 0 !in name
    ensures EntryName(name + Zeros(n)) == name
  {
    if name == [] {
      assert name + Zeros(n) == Zeros(n);
    } else {
      NameReadsBack(name[1..], n);
      assert (name + Zeros(n))[1..] == name[1..] + Zeros(n);
    }
  }

  lemma EntryReadsBack(image: Image, base: nat, name: Name, offset: nat, length: nat, kind: nat)
    requires Holds(image, base, EntryBytes(name, offset, length, kind))
    requires 0 !in name && |name| <= NAME_LEN && offset < U32 && length < U32 && kind < U32
    ensures EntryAt(image, base) == Entry(name, offset, length, kind)
  {
    var a, b, c, d := NameField(name), Le32(offset), Le32(length), Le32(kind);
    HoldsSplit(image, base, a + b + c, d);
    HoldsSplit(image, base, a + b, c);
    HoldsSplit(image, base, a, b);
    ReadLe32(image, base + ENT_OFFSET, offset);
    ReadLe32(image, base + ENT_LENGTH, length);
    ReadLe32(image, base + ENT_KIND, kind);
    NameReadsBack(name, NAME_LEN - |name|);
    assert name[..|name|] == name;
  }

  /** The entry that the k-th file of a table is given. */
  function FileEntry(files: seq<FileSpec>, cursor: nat, k: nat): Entry
    requires k < |files|
  {
    Entry(files[k].name, cursor + DataLen(files[..k]), |files[k].data|, KIND_FILE)
  }

  lemma {:induction false} TableReadsBack(image: Image, off: nat, files: seq<FileSpec>, cursor: nat, k: nat)
    requires Holds(image, off, TableBytes(files, cursor)) && k < |files|
    requires forall f | f in files :: GoodName(f.name)
    requires cursor + DataLen(files) < U32
    ensures Nth(image, off, k) == FileEntry(files, cursor, k)
    decreases |files|
  {
    hide EntryAt, EntryBytes;
    var f := files[0];
    HoldsSplit(image, off, EntryBytes(f.name, cursor, |f.data|, KIND_FILE), TableBytes(files[1..], cursor + |f.data|));
    if k == 0 {
      EntryReadsBack(image, off, f.name, cursor, |f.data|, KIND_FILE);
    } else {
      TableReadsBack(image, off + DIRENT_LEN, files[1..], cursor + |f.data|, k - 1);
      assert files[..k][1..] == files[1..][..k - 1];
      assert off + DIRENT_LEN + DIRENT_LEN * (k - 1) == off + DIRENT_LEN * k;
    }
  }

  lemma {:induction false} DataReadsBack(image: Image, off: nat, files: seq<FileSpec>, k: nat)
    requires Holds(image, off, DataBytes(files)) && k < |files|
    ensures Holds(image, off + DataLen(files[..k]), files[k].data)
    ensures DataLen(files[..k]) + |files[k].data| <= DataLen(files)
    decreases |files|
  {
    HoldsSplit(image, off, files[0].data, DataBytes(files[1..]));
    if k > 0 {
      DataReadsBack(image, off + |files[0].data|, files[1..], k - 1);
      assert files[..k][1..] == files[1..][..k - 1];
    }
  }

  /** Where the writer put everything. */
  ghost predicate LaidOut(image: Image, root: seq<FileSpec>, docs: seq<FileSpec>, secret: seq<byte>) {
    && |image| == DataStop(root, docs) + |secret|
    && Holds(image, 0, Superblock(|root| + 1, |image|, DataStop(root, docs)))
    && Holds(image, SUPERBLOCK_LEN, TableBytes(root, DataOff(root, docs)))
    && Holds(image, SUPERBLOCK_LEN + DIRENT_LEN * |root|, EntryBytes(DOCS, DocsTableOff(root), DIRENT_LEN * |docs|, KIND_DIR))
    && Holds(image, DocsTableOff(root), TableBytes(docs, DataOff(root, docs) + DataLen(root)))
    && Holds(image, DataOff(root, docs), DataBytes(root))
    && Holds(image, DataOff(root, docs) + DataLen(root), DataBytes(docs))
  }

  lemma DiskLaidOut(root: seq<FileSpec>, docs: seq<FileSpec>, secret: seq<byte>)
    ensures LaidOut(Disk(root, docs, secret), root, docs, secret)
  {
    hide EntryBytes, TableBytes, DataBytes, Superblock;
    var img := Disk(root, docs, secret);
    var p1 := Superblock(|root| + 1, DataStop(root, docs) + |secret|, DataStop(root, docs));
    var p2 := p1 + TableBytes(root, DataOff(root, docs));
    var p3 := p2 + EntryBytes(DOCS, DocsTableOff(root), DIRENT_LEN * |docs|, KIND_DIR);
    var p4 := p3 + TableBytes(docs, DataOff(root, docs) + DataLen(root));
    var p5 := p4 + DataBytes(root);
    var p6 := p5 + DataBytes(docs);
    assert img == p6 + secret;
    HoldsSplit(img, 0, p6, secret);
    HoldsSplit(img, 0, p5, DataBytes(docs));
    HoldsSplit(img, 0, p4, DataBytes(root));
    HoldsSplit(img, 0, p3, TableBytes(docs, DataOff(root, docs) + DataLen(root)));
    HoldsSplit(img, 0, p2, EntryBytes(DOCS, DocsTableOff(root), DIRENT_LEN * |docs|, KIND_DIR));
    HoldsSplit(img, 0, p1, TableBytes(root, DataOff(root, docs)));
  }

  lemma HeaderReadsBack(image: Image, root: seq<FileSpec>, docs: seq<FileSpec>, secret: seq<byte>)
    requires LaidOut(image, root, docs, secret) && Writable(root, docs, secret)
    ensures HeaderError(image, Strict).None?
    ensures DataEnd(image) == DataStop(root, docs) && RootLen(image) == DIRENT_LEN * (|root| + 1)
  {
    var v, n, t, d := Le16(VERSION), Le16(|root| + 1), Le32(|image|), Le32(DataStop(root, docs));
    HoldsSplit(image, 0, MAGIC + v + n + t, d);
    HoldsSplit(image, 0, MAGIC + v + n, t);
    HoldsSplit(image, 0, MAGIC + v, n);
    HoldsSplit(image, 0, MAGIC, v);
    ReadLe16(image, 4, VERSION);
    ReadLe16(image, SB_COUNT, |root| + 1);
    ReadLe32(image, SB_TOTAL, |image|);
    ReadLe32(image, SB_DATA_END, DataStop(root, docs));
    assert image[..4] == image[0..4];
  }

  // ---- The strict reader accepts the disk --------------------------------------

  /** A run of file entries with extents below the ceiling is scanned without effect. */
  lemma {:induction false} ScanFiles(image: Image, off: nat, i: nat, stop: nat, n: nat, highWater: nat, depth: nat,
          rules: Rules)
    requires i <= stop <= n && off + DIRENT_LEN * n <= |image| && highWater <= |image| && rules.ceiling <= |image|
    requires forall k | i <= k < stop :: Nth(image, off, k).kind == KIND_FILE && Nth(image, off, k).End() <= rules.ceiling
    ensures WalkEntries(image, off, i, n, highWater, depth, rules) == WalkEntries(image, off, stop, n, highWater, depth, rules)
    decreases stop - i
  {
    if i < stop {
      ScanFiles(image, off, i + 1, stop, n, highWater, depth, rules);
    }
  }

  /** The entries of both tables, read back. */
  ghost predicate EntriesReadBack(image: Image, root: seq<FileSpec>, docs: seq<FileSpec>)
    requires DataStop(root, docs) <= |image|
  {
    && (forall k | 0 <= k < |root| :: Nth(image, SUPERBLOCK_LEN, k) == FileEntry(root, DataOff(root, docs), k))
    && Nth(image, SUPERBLOCK_LEN, |root|) == Entry(DOCS, DocsTableOff(root), DIRENT_LEN * |docs|, KIND_DIR)
    && (forall k | 0 <= k < |docs| ::
          Nth(image, DocsTableOff(root), k) == FileEntry(docs, DataOff(root, docs) + DataLen(root), k))
  }

  lemma ReadEntriesBack(image: Image, root: seq<FileSpec>, docs: seq<FileSpec>, secret: seq<byte>)
    requires LaidOut(image, root, docs, secret) && Writable(root, docs, secret)
    ensures EntriesReadBack(image, root, docs)
  {
    hide EntryAt, EntryBytes, TableBytes;
    forall k | 0 <= k < |root|
      ensures Nth(image, SUPERBLOCK_LEN, k) == FileEntry(root, DataOff(root, docs), k)
    {
      TableReadsBack(image, SUPERBLOCK_LEN, root, DataOff(root, docs), k);
    }
    forall k | 0 <= k < |docs|
      ensures Nth(image, DocsTableOff(root), k) == FileEntry(docs, DataOff(root, docs) + DataLen(root), k)
    {
      TableReadsBack(image, DocsTableOff(root), docs, DataOff(root, docs) + DataLen(root), k);
    }
    EntryReadsBack(image, SUPERBLOCK_LEN + DIRENT_LEN * |root|, DOCS, DocsTableOff(root), DIRENT_LEN * |docs|, KIND_DIR);
  }

  lemma DiskReadsBack(root: seq<FileSpec>, docs: seq<FileSpec>, secret: seq<byte>)
    requires Writable(root, docs, secret)
    ensures var img := Disk(root, docs, secret);
      && LaidOut(img, root, docs, secret)
      && HeaderError(img, Strict).None?
      && DataEnd(img) == DataStop(root, docs) && RootLen(img) == DIRENT_LEN * (|root| + 1)
      && EntriesReadBack(img, root, docs)
  {
    hide Disk, HeaderError, EntriesReadBack, LaidOut, DataEnd, RootLen, Writable;
    var img := Disk(root, docs, secret);
    DiskLaidOut(root, docs, secret);
    HeaderReadsBack(img, root, docs, secret);
    ReadEntriesBack(img, root, docs, secret);
  }

  lemma FileTableScans(image: Image, off: nat, files: seq<FileSpec>, cursor: nat, n: nat, highWater: nat, depth: nat,
          rules: Rules)
    requires |files| <= n && off + DIRENT_LEN * n <= |image| && highWater <= |image|
    requires cursor + DataLen(files) <= rules.ceiling <= |image|
    requires forall k | 0 <= k < |files| :: Nth(image, off, k) == FileEntry(files, cursor, k)
    ensures WalkEntries(image, off, 0, n, highWater, depth, rules) == WalkEntries(image, off, |files|, n, highWater, depth, rules)
  {
    hide EntryAt;
    forall k | 0 <= k < |files| ensures Nth(image, off, k).kind == KIND_FILE && Nth(image, off, k).End() <= rules.ceiling {
      DataLenSnoc(files, k);
    }
    ScanFiles(image, off, 0, |files|, n, highWater, depth, rules);
  }

  lemma WalkTableUnfolds(image: Image, off: nat, n: nat, highWater: nat, depth: nat, rules: Rules)
    requires highWater <= off && off + DIRENT_LEN * n <= |image| && depth <= rules.maxDepth
    ensures WalkTable(image, off, DIRENT_LEN * n, highWater, depth, rules).error
         == WalkEntries(image, off, 0, n, off + DIRENT_LEN * n, depth, rules).error
  {
    hide EntryAt, WalkEntries;
    assert DIRENT_LEN * n % DIRENT_LEN == 0 && DIRENT_LEN * n / DIRENT_LEN == n;
    if n == 0 { NoEntriesLeft(image, off, 0, off, depth, rules); }
  }

  lemma NoEntriesLeft(image: Image, off: nat, n: nat, highWater: nat, depth: nat, rules: Rules)
    requires off + DIRENT_LEN * n <= |image| && highWater <= |image|
    ensures WalkEntries(image, off, n, n, highWater, depth, rules).error.None?
  {
    hide EntryAt, WalkTable;
  }

  lemma DocsTableScans(image: Image, root: seq<FileSpec>, docs: seq<FileSpec>, secret: seq<byte>)
    requires |image| == DataStop(root, docs) + |secret| && EntriesReadBack(image, root, docs)
    ensures WalkTable(image, DocsTableOff(root), DIRENT_LEN * |docs|, DocsTableOff(root), 1,
                      Rules(DataStop(root, docs), MAX_DEPTH)).error.None?
  {
    hide EntryAt, DataLen, WalkTable, WalkEntries;
    var off, stop, rules := DocsTableOff(root), DataOff(root, docs), Rules(DataStop(root, docs), MAX_DEPTH);
    WalkTableUnfolds(image, off, |docs|, off, 1, rules);
    FileTableScans(image, off, docs, stop + DataLen(root), |docs|, stop, 1, rules);
    NoEntriesLeft(image, off, |docs|, stop, 1, rules);
  }

  lemma LastDirScans(image: Image, off: nat, n: nat, highWater: nat, depth: nat, rules: Rules)
    requires 0 < n && off + DIRENT_LEN * n <= |image| && highWater <= |image|
    requires Nth(image, off, n - 1).kind == KIND_DIR && ExtentError(image, Nth(image, off, n - 1), rules.ceiling).None?
    requires WalkTable(image, Nth(image, off, n - 1).offset, Nth(image, off, n - 1).length, highWater, depth + 1, rules).error.None?
    ensures WalkEntries(image, off, n - 1, n, highWater, depth, rules).error.None?
  {
    hide EntryAt, WalkTable;
  }

  lemma RootTableScans(image: Image, root: seq<FileSpec>, docs: seq<FileSpec>, secret: seq<byte>)
    requires |image| == DataStop(root, docs) + |secret| && EntriesReadBack(image, root, docs)
    ensures WalkTable(image, SUPERBLOCK_LEN, DIRENT_LEN * (|root| + 1), SUPERBLOCK_LEN, 0,
                      Rules(DataStop(root, docs), MAX_DEPTH)).error.None?
  {
    hide EntryAt, DataLen, WalkTable, WalkEntries;
    var rules := Rules(DataStop(root, docs), MAX_DEPTH);
    WalkTableUnfolds(image, SUPERBLOCK_LEN, |root| + 1, SUPERBLOCK_LEN, 0, rules);
    FileTableScans(image, SUPERBLOCK_LEN, root, DataOff(root, docs), |root| + 1, DocsTableOff(root), 0, rules);
    DocsTableScans(image, root, docs, secret);
    LastDirScans(image, SUPERBLOCK_LEN, |root| + 1, DocsTableOff(root), 0, rules);
  }

  lemma DiskMounts(root: seq<FileSpec>, docs: seq<FileSpec>, secret: seq<byte>)
    requires Writable(root, docs, secret)
    ensures var img := Disk(root, docs, secret);
      && Mount(img, Strict) == Ok(Fs(img, |root| + 1))
      && Mounted(Fs(img, |root| + 1))
      && EntriesReadBack(img, root, docs)
      && DataEnd(img) == DataStop(root, docs) && RootEnd(img) <= DataEnd(img)
  {
    hide Disk, HeaderError, EntriesReadBack, LaidOut, Writable, WalkTable;
    var img := Disk(root, docs, secret);
    DiskReadsBack(root, docs, secret);
    RootTableScans(img, root, docs, secret);
    StrictRefinesLoose(img);
  }

  // ---- Paths --------------------------------------------------------------------

  /** "/name" */
  function RootPath(name: Name): seq<byte> { [SLASH] + name }

  /** "/docs/name" */
  function DocsPath(name: Name): seq<byte> { [SLASH] + DOCS + [SLASH] + name }

  lemma {:induction false} FindFile(image: Image, off: nat, i: nat, n: nat, k: nat)
    requires i <= k < n && off + DIRENT_LEN * n <= |image|
    requires forall j | i <= j < k :: Nth(image, off, j).name != Nth(image, off, k).name
    ensures var e := Nth(image, off, k);
      FindFrom(image, off, i, n, e.name) == Some(if e.kind == KIND_DIR then Dir(e.offset, e.length) else File(e.offset, e.length))
    decreases k - i
  {
    if i < k {
      FindFile(image, off, i + 1, n, k);
    }
  }

  lemma ResolveNone(image: Image, node: Node)
    requires NodeOk(image, node)
    ensures Descend(image, node, [[], []]) == Ok(node)
  {
    var none: Name := [];
    assert [none, none][1..] == [none] && [none][1..] == [];
    assert Descend(image, node, [none]) == Descend(image, node, []);
  }

  lemma ResolveOne(image: Image, node: Node, name: Name)
    requires NodeOk(image, node) && node.Dir? && name != []
    ensures Descend(image, node, [[], name]) == Descend(image, node, [name])
    ensures var child := FindFrom(image, node.offset, 0, node.length / DIRENT_LEN, name);
      Descend(image, node, [name]) == if child.Some? then Ok(child.value) else Err(NotFound)
  {
    assert [[], name][1..] == [name] && [name][1..] == [];
    FindFromOk(image, node.offset, node.length, 0, name);
  }

  lemma RootPathSplits(name: Name)
    requires SLASH !in name
    ensures Split(RootPath(name)) == [[], name]
  {
    assert [] + [SLASH] + name == RootPath(name);
    SplitJoin([], name);
    SplitPlain(name);
  }

  lemma DocsPathSplits(name: Name)
    requires SLASH !in name
    ensures Split(DocsPath(name)) == [[], DOCS, name]
  {
    assert RootPath(DOCS) + [SLASH] + name == DocsPath(name);
    RootPathSplits(DOCS);
    SplitJoin(RootPath(DOCS), name);
    SplitPlain(name);
  }

  lemma RootPathResolves(root: seq<FileSpec>, docs: seq<FileSpec>, secret: seq<byte>, k: nat)
    requires Writable(root, docs, secret) && k < |root|
    ensures var fs := Fs(Disk(root, docs, secret), |root| + 1);
      Mounted(fs) && Resolve(fs, RootPath(root[k].name)) == Ok(File(DataOff(root, docs) + DataLen(root[..k]), |root[k].data|))
  {
    hide EntryAt, Disk, Split, Descend, FindFrom, DataLen, TreeOk, Mount;
    var fs := Fs(Disk(root, docs, secret), |root| + 1);
    DiskMounts(root, docs, secret);
    var name := root[k].name;
    assert GoodName(name) by { assert root[k] in root; }
    RootPathSplits(name);
    FindFile(fs.image, SUPERBLOCK_LEN, 0, |root| + 1, k);
    ResolveOne(fs.image, Root(fs), name);
  }

  lemma FindDocs(root: seq<FileSpec>, docs: seq<FileSpec>, secret: seq<byte>)
    requires Writable(root, docs, secret)
    ensures FindFrom(Disk(root, docs, secret), SUPERBLOCK_LEN, 0, |root| + 1, DOCS) == Some(Dir(DocsTableOff(root), DIRENT_LEN * |docs|))
  {
    hide EntryAt, Disk, FindFrom, DataLen, TreeOk, Mount;
    DiskMounts(root, docs, secret);
    forall j | 0 <= j < |root| ensures Nth(Disk(root, docs, secret), SUPERBLOCK_LEN, j).name != DOCS {
      assert root[j] in root;
    }
    FindFile(Disk(root, docs, secret), SUPERBLOCK_LEN, 0, |root| + 1, |root|);
  }

  lemma DocsResolves(root: seq<FileSpec>, docs: seq<FileSpec>, secret: seq<byte>)
    requires Writable(root, docs, secret)
    ensures var fs := Fs(Disk(root, docs, secret), |root| + 1);
      && Mounted(fs)
      && Resolve(fs, RootPath(DOCS)) == Ok(Dir(DocsTableOff(root), DIRENT_LEN * |docs|))
  {
    hide EntryAt, Disk, Split, Descend, FindFrom, DataLen, TreeOk, Mount, Writable, EntriesReadBack;
    var fs := Fs(Disk(root, docs, secret), |root| + 1);
    DiskMounts(root, docs, secret);
    FindDocs(root, docs, secret);
    RootPathSplits(DOCS);
    ResolveOne(fs.image, Root(fs), DOCS);
  }

  lemma FindDocsFile(root: seq<FileSpec>, docs: seq<FileSpec>, secret: seq<byte>, k: nat)
    requires Writable(root, docs, secret) && k < |docs|
    ensures GoodName(docs[k].name)
    ensures FindFrom(Disk(root, docs, secret), DocsTableOff(root), 0, |docs|, docs[k].name)
      == Some(File(DataOff(root, docs) + DataLen(root) + DataLen(docs[..k]), |docs[k].data|))
  {
    hide EntryAt, Disk, FindFrom, DataLen, TreeOk, Mount;
    DiskMounts(root, docs, secret);
    assert GoodName(docs[k].name) by { assert docs[k] in docs; }
    FindFile(Disk(root, docs, secret), DocsTableOff(root), 0, |docs|, k);
  }

  lemma DocsPathResolves(root: seq<FileSpec>, docs: seq<FileSpec>, secret: seq<byte>, k: nat)
    requires Writable(root, docs, secret) && k < |docs|
    ensures var fs := Fs(Disk(root, docs, secret), |root| + 1);
      && Mounted(fs)
      && Resolve(fs, DocsPath(docs[k].name)) == Ok(File(DataOff(root, docs) + DataLen(root) + DataLen(docs[..k]), |docs[k].data|))
  {
    hide EntryAt, Disk, Split, Descend, FindFrom, DataLen, TreeOk, Mount, Writable, EntriesReadBack, DataOff;
    var fs := Fs(Disk(root, docs, secret), |root| + 1);
    DiskMounts(root, docs, secret);
    FindDocs(root, docs, secret);
    var name := docs[k].name;
    FindDocsFile(root, docs, secret, k);
    DocsPathSplits(name);
    ResolveTwo(fs.image, Root(fs), DOCS, name);
    ResolveOne(fs.image, Dir(DocsTableOff(root), DIRENT_LEN * |docs|), name);
  }

  lemma ResolveTwo(image: Image, node: Node, first: Name, second: Name)
    requires NodeOk(image, node) && node.Dir? && first != []
    ensures var child := FindFrom(image, node.offset, 0, node.length / DIRENT_LEN, first);
      child.Some? ==>
        && NodeOk(image, child.value)
        && Descend(image, node, [[], first, second]) == Descend(image, child.value, [second])
  {
    assert [[], first, second][1..] == [first, second] && [first, second][1..] == [second];
    FindFromOk(image, node.offset, node.length, 0, first);
  }

  // ---- The round trip -------------------------------------------------------------

  /** What `ls` shows of a file list. */
  function ListingOf(files: seq<FileSpec>, cursor: nat): seq<DirEntry> {
    seq(|files|, k requires 0 <= k < |files| =>
      DirEntry(files[k].name, cursor + DataLen(files[..k]), |files[k].data|, false))
  }

  lemma RootListingReadsBack(root: seq<FileSpec>, docs: seq<FileSpec>, secret: seq<byte>)
    requires Writable(root, docs, secret)
    ensures var fs := Fs(Disk(root, docs, secret), |root| + 1);
      && Mounted(fs)
      && ListDir(fs, [SLASH]) == Ok(ListingOf(root, DataOff(root, docs)) + [DirEntry(DOCS, DocsTableOff(root), DIRENT_LEN * |docs|, true)])
  {
    hide EntryAt, Disk, DataLen, TreeOk, Mount, FindFrom, Writable, Split, Descend;
    var fs := Fs(Disk(root, docs, secret), |root| + 1);
    DiskMounts(root, docs, secret);
    RootPathSplits([]);
    assert RootPath([]) == [SLASH];
    ResolveNone(fs.image, Root(fs));
    ResolvedDirLists(fs, [SLASH], SUPERBLOCK_LEN, |root| + 1);
    assert Listing(fs.image, SUPERBLOCK_LEN, |root| + 1)
        == ListingOf(root, DataOff(root, docs)) + [DirEntry(DOCS, DocsTableOff(root), DIRENT_LEN * |docs|, true)];
  }

  lemma ListingReadsBack(image: Image, off: nat, files: seq<FileSpec>, cursor: nat)
    requires off + DIRENT_LEN * |files| <= |image|
    requires forall k | 0 <= k < |files| :: Nth(image, off, k) == FileEntry(files, cursor, k)
    ensures Listing(image, off, |files|) == ListingOf(files, cursor)
  {
    hide EntryAt;
  }

  lemma ResolvedDirLists(fs: Fs, path: seq<byte>, off: nat, n: nat)
    requires Mounted(fs) && Resolve(fs, path) == Ok(Dir(off, DIRENT_LEN * n))
    ensures off + DIRENT_LEN * n <= |fs.image| && ListDir(fs, path) == Ok(Listing(fs.image, off, n))
  {
    hide EntryAt, Descend, Split, Listing;
    assert NodeOk(fs.image, Dir(off, DIRENT_LEN * n));
    assert DIRENT_LEN * n / DIRENT_LEN == n;
  }

  lemma DocsListingReadsBack(root: seq<FileSpec>, docs: seq<FileSpec>, secret: seq<byte>)
    requires Writable(root, docs, secret)
    ensures var fs := Fs(Disk(root, docs, secret), |root| + 1);
      Mounted(fs) && ListDir(fs, RootPath(DOCS)) == Ok(ListingOf(docs, DataOff(root, docs) + DataLen(root)))
  {
    hide EntryAt, Disk, DataLen, TreeOk, Mount, FindFrom, Writable, Resolve, ListDir, Listing, ListingOf, RootPath;
    var fs := Fs(Disk(root, docs, secret), |root| + 1);
    DiskMounts(root, docs, secret);
    DocsResolves(root, docs, secret);
    ResolvedDirLists(fs, RootPath(DOCS), DocsTableOff(root), |docs|);
    ListingReadsBack(fs.image, DocsTableOff(root), docs, DataOff(root, docs) + DataLen(root));
  }

  lemma FilesReadBack(root: seq<FileSpec>, docs: seq<FileSpec>, secret: seq<byte>)
    requires Writable(root, docs, secret)
    ensures var fs := Fs(Disk(root, docs, secret), |root| + 1);
      && Mounted(fs)
      && (forall k | 0 <= k < |root| :: ReadPath(fs, RootPath(root[k].name)) == Ok(root[k].data))
      && (forall k | 0 <= k < |docs| :: ReadPath(fs, DocsPath(docs[k].name)) == Ok(docs[k].data))
  {
    hide EntryAt, Disk, DataLen, TreeOk, Mount, FindFrom, Writable, Split, Descend, DataBytes, TableBytes, Superblock,
         Resolve, EntriesReadBack, HeaderError, EntryBytes;
    var fs := Fs(Disk(root, docs, secret), |root| + 1);
    DiskMounts(root, docs, secret);
    DiskReadsBack(root, docs, secret);
    forall k | 0 <= k < |root| ensures ReadPath(fs, RootPath(root[k].name)) == Ok(root[k].data) {
      RootPathResolves(root, docs, secret, k);
      DataReadsBack(fs.image, DataOff(root, docs), root, k);
    }
    forall k | 0 <= k < |docs| ensures ReadPath(fs, DocsPath(docs[k].name)) == Ok(docs[k].data) {
      DocsPathResolves(root, docs, secret, k);
      DataReadsBack(fs.image, DataOff(root, docs) + DataLen(root), docs, k);
    }
  }

  /** Strict `mount` accepts what `boot_image` writes; both directories list exactly the
      files put in; every file reads back byte for byte; and no path at all resolves to
      a byte at or past `data_end`, where the hidden bytes start. */
  lemma RoundTrip(root: seq<FileSpec>, docs: seq<FileSpec>, secret: seq<byte>)
    requires Writable(root, docs, secret)
    ensures var img := Disk(root, docs, secret); var fs := Fs(img, |root| + 1); var data := DataOff(root, docs);
      && Mount(img, Strict) == Ok(fs) && Mounted(fs)
      && ListDir(fs, [SLASH]) == Ok(ListingOf(root, data) + [DirEntry(DOCS, DocsTableOff(root), DIRENT_LEN * |docs|, true)])
      && ListDir(fs, RootPath(DOCS)) == Ok(ListingOf(docs, data + DataLen(root)))
      && (forall k | 0 <= k < |root| :: ReadPath(fs, RootPath(root[k].name)) == Ok(root[k].data))
      && (forall k | 0 <= k < |docs| :: ReadPath(fs, DocsPath(docs[k].name)) == Ok(docs[k].data))
      && (forall path: seq<byte> | Resolve(fs, path).Ok? ::
            Resolve(fs, path).value.offset + Resolve(fs, path).value.length <= DataStop(root, docs))
      && img[DataStop(root, docs)..] == secret
  {
    hide EntryAt, Disk, DataLen, TreeOk, Mount, Writable, ListDir, ReadPath, Resolve, ListingOf, EntriesReadBack,
         DataEnd, RootEnd;
    var img := Disk(root, docs, secret);
    var fs := Fs(img, |root| + 1);
    DiskMounts(root, docs, secret);
    RootListingReadsBack(root, docs, secret);
    DocsListingReadsBack(root, docs, secret);
    FilesReadBack(root, docs, secret);
    SecretLast(root, docs, secret);
    forall path: seq<byte> | Resolve(fs, path).Ok?
      ensures Resolve(fs, path).value.offset + Resolve(fs, path).value.length <= DataStop(root, docs)
    {
      StrictConfines(img, path);
    }
  }

  /** The disk in figures: the directory is called "docs"; 16 bytes of superblock and 32 an
      entry come before the data, and nothing else. */
  lemma DiskInFigures(root: seq<FileSpec>, docs: seq<FileSpec>, secret: seq<byte>, name: Name)
    ensures RootPath(name) == [47] + name && DocsPath(name) == [47, 100, 111, 99, 115, 47] + name
    ensures RootPath(DOCS) == [47, 100, 111, 99, 115]
    ensures DataOff(root, docs) == 16 + 32 * (|root| + 1 + |docs|)
    ensures |Disk(root, docs, secret)| == 16 + 32 * (|root| + 1 + |docs|) + DataLen(root) + DataLen(docs) + |secret|
    ensures Disk(root, docs, secret)[..6] == [90, 82, 70, 83, 3, 0]
  {
    hide EntryBytes, TableBytes, DataBytes, Disk, DataLen;
    HeaderFirst(root, docs, secret);
    assert Superblock(|root| + 1, DataStop(root, docs) + |secret|, DataStop(root, docs))[..6] == [90, 82, 70, 83, 3, 0];
  }

  lemma HeaderFirst(root: seq<FileSpec>, docs: seq<FileSpec>, secret: seq<byte>)
    ensures var header := Superblock(|root| + 1, DataStop(root, docs) + |secret|, DataStop(root, docs));
      Disk(root, docs, secret)[..6] == header[..6]
  {
    hide EntryBytes, TableBytes, DataBytes, Superblock;
  }

  lemma SecretLast(root: seq<FileSpec>, docs: seq<FileSpec>, secret: seq<byte>)
    ensures Disk(root, docs, secret)[DataStop(root, docs)..] == secret
  {
    hide EntryBytes, TableBytes, DataBytes, Superblock;
  }
}
