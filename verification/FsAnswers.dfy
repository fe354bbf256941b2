/** The reader's format and answers in figures: superblock and entries byte by byte, and
    what each path answer means. */
module FsAnswers {
  import opened Common
  import opened LittleEndian
  import opened Paths
  import opened Fs
  import opened FsValidation

  // ---- The superblock ------------------------------------------------------------------------------

  /** "ZRFS" */
  predicate Magic(image: Image)
    requires |image| >= 16
  {
    image[0] == 90 && image[1] == 82 && image[2] == 70 && image[3] == 83
  }

  predicate Version3(image: Image)
    requires |image| >= 16
  {
    image[4] as int + 256 * image[5] as int == 3
  }

  function Count(image: Image): nat
    requires |image| >= 16
  {
    image[6] as int + 256 * image[7] as int
  }

  /** Bytes 8 to 11 and 12 to 15, the least significant first. */
  function TotalSize(image: Image): nat
    requires |image| >= 16
  {
    image[8] as int + 256 * (image[9] as int + 256 * (image[10] as int + 256 * image[11] as int))
  }

  function DataStops(image: Image): nat
    requires |image| >= 16
  {
    image[12] as int + 256 * (image[13] as int + 256 * (image[14] as int + 256 * image[15] as int))
  }

  predicate SizeFits(image: Image, reader: Reader)
    requires |image| >= 16
  {
    if reader == Tier2 then TotalSize(image) <= |image| else TotalSize(image) == |image|
  }

  lemma HeaderFields(image: Image)
    requires |image| >= 16
    ensures (image[..4] == MAGIC <==> Magic(image)) && (ReadU16(image, 4) == VERSION <==> Version3(image))
    ensures ReadU16(image, SB_COUNT) == Count(image) && RootLen(image) == 32 * Count(image)
    ensures ReadU32(image, SB_TOTAL) == TotalSize(image) && DataEnd(image) == DataStops(image)
  {
    var m := image[..4];
    assert m[0] == image[0] && m[1] == image[1] && m[2] == image[2] && m[3] == image[3];
    if Magic(image) { assert m == [image[0], image[1], image[2], image[3]]; }
  }

  /** The first header condition that fails is the error that mount reports; if none fails,
      the tree decides. */
  lemma HeaderExactly(image: Image, reader: Reader)
    ensures |image| < 16 ==> Mount(image, reader) == Err(Truncated)
    ensures |image| >= 16 ==>
      && (!Magic(image) ==> Mount(image, reader) == Err(BadMagic))
      && (Magic(image) && !Version3(image) ==> Mount(image, reader) == Err(UnsupportedVersion))
      && (Magic(image) && Version3(image) ==>
            && (!SizeFits(image, reader) ==> Mount(image, reader) == Err(SizeMismatch))
            && (SizeFits(image, reader) ==>
                  && (!(16 <= DataStops(image) <= |image|) ==> Mount(image, reader) == Err(BadDataEnd))
                  && (16 <= DataStops(image) <= |image| ==>
                        && (16 + 32 * Count(image) > |image| ==> Mount(image, reader) == Err(Truncated))
                        && (16 + 32 * Count(image) <= |image| <==> HeaderError(image, reader).None?))))
  {
    hide MAGIC;
    hide ReadU16, ReadU32, Magic, Version3, Count, TotalSize, DataStops, WalkTable;
    if |image| >= 16 { HeaderFields(image); }
  }

  /** What mounting hands out, and what it accepted. */
  lemma AcceptedHeader(image: Image, reader: Reader)
    requires Mount(image, reader).Ok?
    ensures |image| >= 16 && Magic(image) && Version3(image) && SizeFits(image, reader)
    ensures 16 <= DataStops(image) <= |image| && 16 + 32 * Count(image) <= |image|
    ensures Mount(image, reader).value == Fs(image, Count(image))
    ensures Root(Mount(image, reader).value) == Dir(16, 32 * Count(image))
    ensures Ceiling(image, reader) == if reader == Strict then DataStops(image) else |image|
  {
    HeaderExactly(image, reader);
    HeaderFields(image);
  }

  // ---- An entry ------------------------------------------------------------------------------------

  /** Entry i of the table at `off`: 32 bytes, of which 20 hold the name up to the first NUL,
      then offset, length and kind, the least significant byte first. */
  lemma EntryExactly(image: Image, off: nat, i: nat)
    requires off + 32 * (i + 1) <= |image|
    ensures var e, b := Nth(image, off, i), off + 32 * i;
      && |e.name| <= 20 && e.name == image[b..b + |e.name|] && 0 !in e.name
      && (|e.name| < 20 ==> image[b + |e.name|] == 0)
      && e.offset == image[b + 20] as int + 256 * (image[b + 21] as int + 256 * (image[b + 22] as int + 256 * image[b + 23] as int))
      && e.length == image[b + 24] as int + 256 * (image[b + 25] as int + 256 * (image[b + 26] as int + 256 * image[b + 27] as int))
      && e.kind == image[b + 28] as int + 256 * (image[b + 29] as int + 256 * (image[b + 30] as int + 256 * image[b + 31] as int))
  {
    var b := off + 32 * i;
    NameExactly(image[b..b + 20]);
    var name := EntryName(image[b..b + 20]);
    assert image[b..b + 20][..|name|] == image[b..b + |name|];
  }

  lemma {:induction false} NameExactly(raw: seq<byte>)
    ensures var name := EntryName(raw);
      |name| <= |raw| && name == raw[..|name|] && 0 !in name && (|name| < |raw| ==> raw[|name|] == 0)
  {
    if raw != [] && raw[0] != 0 { NameExactly(raw[1..]); }
  }

  // ---- Rejections ----------------------------------------------------------------------------------

  /** Why a table is rejected before its entries are looked at: the first of these. */
  lemma TableRejected(image: Image, off: nat, len: nat, highWater: nat, depth: nat, ceiling: int, cap: int)
    requires highWater <= |image|
    ensures var error := WalkTable(image, off, len, highWater, depth, Rules(ceiling, cap)).error;
      && (depth > cap ==> error == Some(TooDeep))
      && (depth <= cap ==>
            && (off < highWater ==> error == Some(DirNotForward))
            && (off >= highWater ==>
                  && (len % 32 != 0 ==> error == Some(BadDirLength))
                  && (len % 32 == 0 && off + len > |image| ==> error == Some(EntryOutOfBounds))
                  && (len == 0 && off <= |image| ==> error == None)))
  {
  }

  /** Why an entry is rejected: the first of these, whatever the entries behind it hold. */
  lemma EntryRejected(image: Image, off: nat, i: nat, n: nat, highWater: nat, depth: nat, rules: Rules)
    requires i < n && off + 32 * n <= |image| && highWater <= |image|
    ensures var e, error := Nth(image, off, i), WalkEntries(image, off, i, n, highWater, depth, rules).error;
      && (e.offset + e.length > |image| ==> error == Some(EntryOutOfBounds))
      && (rules.ceiling < e.offset + e.length <= |image| ==> error == Some(ExtentEscapesData))
      && (e.offset + e.length <= Min(|image|, rules.ceiling) && e.kind != 0 && e.kind != 1 ==> error == Some(BadKind))
  {
    hide EntryAt;
  }

  // ---- Paths -----------------------------------------------------------------------------------------

  /** Descending fails in two ways only. */
  lemma {:induction false} DescendErrors(image: Image, node: Node, comps: seq<Name>)
    requires NodeOk(image, node) && Descend(image, node, comps).Err?
    ensures Descend(image, node, comps).error in {NotFound, NotADirectory}
    decreases |comps|
  {
    hide EntryAt;
    if comps[0] == [] {
      DescendErrors(image, node, comps[1..]);
    } else if node.Dir? {
      FindFromOk(image, node.offset, node.length, 0, comps[0]);
      var child := FindFrom(image, node.offset, 0, node.length / DIRENT_LEN, comps[0]);
      if child.Some? { DescendErrors(image, child.value, comps[1..]); }
    }
  }

  /** A path names a file, a directory or nothing: it reads iff it names a file, giving the
      file's bytes, and is refused as a directory iff it names one; it lists iff it names a
      directory; where it names nothing, both fail as resolving does. */
  lemma AnswersExactly(fs: Fs, path: seq<byte>)
    requires Mounted(fs)
    ensures var r := Resolve(fs, path);
      && (r.Ok? && r.value.File? <==> ReadPath(fs, path).Ok?)
      && (r.Ok? && r.value.File? ==>
            ReadPath(fs, path).value == fs.image[r.value.offset..r.value.offset + r.value.length]
            && ListDir(fs, path) == Err(NotADirectory))
      && (r.Ok? && r.value.Dir? <==> ReadPath(fs, path) == Err(IsADirectory))
      && (r.Ok? && r.value.Dir? <==> ListDir(fs, path).Ok?)
      && (r.Ok? && r.value.Dir? ==> |ListDir(fs, path).value| == r.value.length / 32)
      && (r.Err? ==>
            && r.error in {NotFound, NotADirectory}
            && ReadPath(fs, path) == Err(r.error) && ListDir(fs, path) == Err(r.error))
  {
    hide EntryAt, Listing;
    if Resolve(fs, path).Err? { DescendErrors(fs.image, Root(fs), Split(path)); }
  }

  /** A name below a file, or below nothing, leads nowhere. */
  lemma BelowNoDirectory(fs: Fs, path: seq<byte>, name: Name)
    requires Mounted(fs) && name != [] && 47 !in name
    ensures var r, below := Resolve(fs, path), Resolve(fs, path + [47] + name);
      && (r.Ok? && r.value.File? ==> below == Err(NotADirectory))
      && (r.Err? ==> below == r)
  {
    hide EntryAt, FindFrom, TreeOk, Split;
    SplitJoin(path, name);
    SplitPlain(name);
    DescendAppend(fs.image, Root(fs), Split(path), [name]);
  }

  /** The empty path and "/" name the root; a slash at the end of a path, or two for one
      inside it, changes nothing. */
  lemma SlashesAlone(fs: Fs, path: seq<byte>, rest: seq<byte>)
    requires Mounted(fs)
    ensures Resolve(fs, []) == Ok(Dir(16, 32 * fs.fileCount)) == Resolve(fs, [47])
    ensures Resolve(fs, path + [47]) == Resolve(fs, path)
    ensures Resolve(fs, path + [47] + ([47] + rest)) == Resolve(fs, path + [47] + rest)
  {
    hide EntryAt, TreeOk, FindFrom;
    RootSplits();
    var empty: Name := [];
    SplitJoin(path, []);
    assert path + [47] + [] == path + [47];
    EmptySkipped(fs.image, Root(fs), []);
    DescendAppend(fs.image, Root(fs), Split(path), [empty]);
    SplitJoin(path, [47] + rest);
    SplitJoin(path, rest);
    SplitSlash(rest);
    DescendAppend(fs.image, Root(fs), Split(path), [empty] + Split(rest));
    DescendAppend(fs.image, Root(fs), Split(path), Split(rest));
    assert Split(path) + ([empty] + Split(rest)) == Split(path) + Split([47] + rest);
    if Resolve(fs, path).Ok? { EmptySkipped(fs.image, Resolve(fs, path).value, Split(rest)); }
  }

  lemma RootSplits()
    ensures Split([]) == [[]] && Split([47]) == [[], []]
  {
  }

  lemma SplitSlash(rest: seq<byte>)
    ensures Split([47] + rest) == [[]] + Split(rest)
  {
    assert ([47] + rest)[1..] == rest;
  }

  lemma EmptySkipped(image: Image, node: Node, comps: seq<Name>)
    requires NodeOk(image, node)
    ensures Descend(image, node, [[]] + comps) == Descend(image, node, comps)
    ensures Descend(image, node, [[]]) == Ok(node) == Descend(image, node, [[], []])
  {
    hide EntryAt, FindFrom, TreeOk;
    var empty: Name := [];
    assert ([empty] + comps)[1..] == comps;
    assert [empty][1..] == [] && [empty, empty][1..] == [empty];
  }
}
