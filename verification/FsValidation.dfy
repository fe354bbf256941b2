/** What a validation run guarantees: totality of the readers, linear work, how the
    strict, loose and tier-2 readers relate, and that listings match lookups. */
module FsValidation {
  import opened Common
  import opened LittleEndian
  import opened Paths
  import opened Fs

  // ---- Totality ------------------------------------------------------------

  lemma {:induction false} WalkTableOk(image: Image, off: nat, len: nat, highWater: nat, depth: nat, rules: Rules)
    requires highWater <= |image|
    requires WalkTable(image, off, len, highWater, depth, rules).error.None?
    ensures TreeOk(image, off, len)
    decreases |image| - highWater, 0, 0
  {
    hide EntryAt;
    if len > 0 {
      WalkEntriesOk(image, off, len, 0, off + len, depth, rules);
    }
  }

  lemma {:induction false} WalkEntriesOk(image: Image, off: nat, len: nat, i: nat, highWater: nat, depth: nat,
          rules: Rules)
    requires 0 < len && len % DIRENT_LEN == 0 && i <= len / DIRENT_LEN
    requires off + len <= highWater <= |image|
    requires WalkEntries(image, off, i, len / DIRENT_LEN, highWater, depth, rules).error.None?
    ensures forall k | i <= k < len / DIRENT_LEN :: ChildOk(image, off, len, Nth(image, off, k))
    decreases |image| - highWater, 1, len / DIRENT_LEN - i
  {
    hide EntryAt;
    if i < len / DIRENT_LEN {
      var e := Nth(image, off, i);
      if e.kind == KIND_FILE {
        WalkEntriesOk(image, off, len, i + 1, highWater, depth, rules);
      } else {
        WalkTableOk(image, e.offset, e.length, highWater, depth + 1, rules);
        var c := WalkTable(image, e.offset, e.length, highWater, depth + 1, rules);
        WalkEntriesOk(image, off, len, i + 1, c.highWater, depth, rules);
      }
      assert ChildOk(image, off, len, Nth(image, off, i));
    }
  }

  /** Whichever reader accepted the image, every path then resolves, lists and reads
      without leaving it: `Mounted` is the precondition under which all array accesses
      of the readers were proved in bounds. */
  lemma MountedMeansTotal(image: Image, reader: Reader, path: seq<byte>)
    requires Mount(image, reader).Ok?
    ensures Mounted(Mount(image, reader).value)
    ensures var r := Resolve(Mount(image, reader).value, path);
      r.Ok? ==> r.value.offset + r.value.length <= |image| && (r.value.Dir? ==> r.value.length % DIRENT_LEN == 0)
  {
    WalkTableOk(image, SUPERBLOCK_LEN, RootLen(image), SUPERBLOCK_LEN, 0, Rules(Ceiling(image, reader), MAX_DEPTH));
  }

  // ---- Linear work ---------------------------------------------------------

  /** The tables lie one after another, without overlap, inside [lo, hi). */
  ghost predicate Rising(tables: seq<Table>, lo: nat, hi: nat) {
    if tables == [] then lo <= hi
    else
      && lo <= tables[0].offset && tables[0].length > 0
      && Rising(tables[1..], tables[0].offset + tables[0].length, hi)
  }

  ghost function TotalLength(tables: seq<Table>): nat {
    if tables == [] then 0 else tables[0].length + TotalLength(tables[1..])
  }

  lemma {:induction false} RisingAppend(a: seq<Table>, b: seq<Table>, lo: nat, mid: nat, hi: nat)
    requires Rising(a, lo, mid) && Rising(b, mid, hi)
    ensures Rising(a + b, lo, hi)
    ensures TotalLength(a + b) == TotalLength(a) + TotalLength(b)
  {
    if a == [] {
      RisingWiden(b, lo, mid, hi);
      assert a + b == b;
    } else {
      RisingAppend(a[1..], b, a[0].offset + a[0].length, mid, hi);
      assert (a + b)[1..] == a[1..] + b;
    }
  }

  lemma {:induction false} RisingWiden(b: seq<Table>, lo: nat, mid: nat, hi: nat)
    requires lo <= mid && Rising(b, mid, hi)
    ensures Rising(b, lo, hi)
  {
    if b == [] { }
  }

  lemma {:induction false} RisingBound(tables: seq<Table>, lo: nat, hi: nat)
    requires Rising(tables, lo, hi)
    ensures lo + TotalLength(tables) <= hi
  {
    if tables != [] {
      RisingBound(tables[1..], tables[0].offset + tables[0].length, hi);
    }
  }

  lemma {:induction false} RisingSeparate(tables: seq<Table>, lo: nat, hi: nat)
    requires Rising(tables, lo, hi)
    ensures Separate(tables) && forall j | 0 <= j < |tables| :: lo <= tables[j].offset
  {
    if tables != [] {
      RisingSeparate(tables[1..], tables[0].offset + tables[0].length, hi);
      assert tables == [tables[0]] + tables[1..];
    }
  }

  lemma {:induction false} WalkTableWork(image: Image, off: nat, len: nat, highWater: nat, depth: nat, rules: Rules)
    requires highWater <= |image|
    ensures var w := WalkTable(image, off, len, highWater, depth, rules);
      Rising(w.tables, highWater, w.highWater) && DIRENT_LEN * (w.calls - 1) <= TotalLength(w.tables)
    decreases |image| - highWater, 0, 0
  {
    hide EntryAt;
    var w := WalkTable(image, off, len, highWater, depth, rules);
    if TableError(image, off, len, highWater, depth, rules).None? && len > 0 {
      WalkEntriesWork(image, off, 0, len / DIRENT_LEN, off + len, depth, rules);
      assert w.tables[1..] == WalkEntries(image, off, 0, len / DIRENT_LEN, off + len, depth, rules).tables;
    }
  }

  lemma {:induction false} WalkEntriesWork(image: Image, off: nat, i: nat, n: nat, highWater: nat, depth: nat,
          rules: Rules)
    requires i <= n && off + DIRENT_LEN * n <= |image| && highWater <= |image|
    ensures var w := WalkEntries(image, off, i, n, highWater, depth, rules);
      Rising(w.tables, highWater, w.highWater) && DIRENT_LEN * (w.calls - (n - i)) <= TotalLength(w.tables)
    decreases |image| - highWater, 1, n - i
  {
    hide EntryAt;
    if i < n {
      var e := Nth(image, off, i);
      if ExtentError(image, e, rules.ceiling).None? {
        if e.kind == KIND_FILE {
          WalkEntriesWork(image, off, i + 1, n, highWater, depth, rules);
        } else if e.kind == KIND_DIR {
          WalkTableWork(image, e.offset, e.length, highWater, depth + 1, rules);
          var c := WalkTable(image, e.offset, e.length, highWater, depth + 1, rules);
          if c.error.None? {
            var rest := WalkEntries(image, off, i + 1, n, c.highWater, depth, rules);
            WalkEntriesWork(image, off, i + 1, n, c.highWater, depth, rules);
            RisingAppend(c.tables, rest.tables, highWater, c.highWater, rest.highWater);
          }
        }
      }
    }
  }

  /** Pairwise disjoint, at strictly rising offsets. */
  ghost predicate Separate(tables: seq<Table>) {
    && (forall j | 0 <= j < |tables| :: tables[j].length > 0)
    && (forall j, k | 0 <= j < k < |tables| :: tables[j].offset + tables[j].length <= tables[k].offset)
  }

  /** Validation is linear in the image, accepted or not, for every ceiling and every
      depth cap: the non-empty tables scanned are pairwise disjoint with strictly rising
      offsets, and both their total length and the number of calls are bounded. */
  lemma ValidationIsLinear(image: Image, rules: Rules)
    requires SUPERBLOCK_LEN <= |image|
    ensures var w := WalkTable(image, SUPERBLOCK_LEN, RootLen(image), SUPERBLOCK_LEN, 0, rules);
      && Separate(w.tables)
      && TotalLength(w.tables) <= |image| - SUPERBLOCK_LEN
      && w.calls <= 1 + (|image| - SUPERBLOCK_LEN) / DIRENT_LEN
  {
    var w := WalkTable(image, SUPERBLOCK_LEN, RootLen(image), SUPERBLOCK_LEN, 0, rules);
    WalkTableWork(image, SUPERBLOCK_LEN, RootLen(image), SUPERBLOCK_LEN, 0, rules);
    RisingBound(w.tables, SUPERBLOCK_LEN, w.highWater);
    RisingSeparate(w.tables, SUPERBLOCK_LEN, w.highWater);
  }

  // ---- Strict, loose, tier 2 -----------------------------------------------

  /** Every entry of the table, and of every table below it, ends at or before `bound`. */
  ghost predicate AllWithin(image: Image, off: nat, len: nat, bound: int)
    requires TreeOk(image, off, len)
    decreases |image| - off, 1
  {
    EntriesWithin(image, off, len, 0, bound)
  }

  ghost predicate EntriesWithin(image: Image, off: nat, len: nat, i: nat, bound: int)
    requires off + len <= |image| && len % DIRENT_LEN == 0
    requires forall k | i <= k < len / DIRENT_LEN :: ChildOk(image, off, len, Nth(image, off, k))
    decreases |image| - off, 0
  {
    forall k | i <= k < len / DIRENT_LEN ::
      var e := Nth(image, off, k);
      && e.End() <= bound
      && (ChildOk(image, off, len, e) && e.kind == KIND_DIR ==> AllWithin(image, e.offset, e.length, bound))
  }

  /** How a walk under ceiling `bound` compares with the loose walk of the same table. */
  ghost predicate Refines(strict: Walk, loose: Walk, within: bool) {
    && (strict == loose || strict.error == Some(ExtentEscapesData))
    && (strict.error.None? ==> strict == loose)
    && (loose.error.None? ==> (strict.error.None? <==> within))
  }

  lemma {:induction false} WalkTableRefines(image: Image, off: nat, len: nat, highWater: nat, depth: nat, cap: int,
          bound: int)
    requires highWater <= |image| && bound <= |image|
    ensures var loose := WalkTable(image, off, len, highWater, depth, Rules(|image|, cap));
      && (loose.error.None? ==> TreeOk(image, off, len))
      && Refines(WalkTable(image, off, len, highWater, depth, Rules(bound, cap)), loose,
                 loose.error.None? && AllWithin(image, off, len, bound))
    decreases |image| - highWater, 0, 0
  {
    hide EntryAt;
    var loose := WalkTable(image, off, len, highWater, depth, Rules(|image|, cap));
    if loose.error.None? {
      WalkTableOk(image, off, len, highWater, depth, Rules(|image|, cap));
    }
    if TableError(image, off, len, highWater, depth, Rules(bound, cap)).None? && len > 0 {
      WalkEntriesRefines(image, off, len, 0, off + len, depth, cap, bound);
    }
  }

  lemma {:induction false} WalkEntriesRefines(image: Image, off: nat, len: nat, i: nat, highWater: nat, depth: nat,
          cap: int, bound: int)
    requires 0 < len && len % DIRENT_LEN == 0 && i <= len / DIRENT_LEN
    requires off + len <= highWater <= |image| && bound <= |image|
    ensures var n := len / DIRENT_LEN;
      var loose := WalkEntries(image, off, i, n, highWater, depth, Rules(|image|, cap));
      && (loose.error.None? ==> forall k | i <= k < n :: ChildOk(image, off, len, Nth(image, off, k)))
      && Refines(WalkEntries(image, off, i, n, highWater, depth, Rules(bound, cap)), loose,
                 loose.error.None? && EntriesWithin(image, off, len, i, bound))
    decreases |image| - highWater, 1, len / DIRENT_LEN - i
  {
    hide EntryAt;
    var n := len / DIRENT_LEN;
    if WalkEntries(image, off, i, n, highWater, depth, Rules(|image|, cap)).error.None? {
      WalkEntriesOk(image, off, len, i, highWater, depth, Rules(|image|, cap));
    }
    if i < n {
      var e := Nth(image, off, i);
      if ExtentError(image, e, bound).None? {
        if e.kind == KIND_FILE {
          WalkEntriesRefines(image, off, len, i + 1, highWater, depth, cap, bound);
        } else if e.kind == KIND_DIR {
          WalkTableRefines(image, e.offset, e.length, highWater, depth + 1, cap, bound);
          var c := WalkTable(image, e.offset, e.length, highWater, depth + 1, Rules(|image|, cap));
          if c.error.None? {
            WalkEntriesRefines(image, off, len, i + 1, c.highWater, depth, cap, bound);
          }
        }
      }
    }
  }

  /** The strict reader accepts exactly the images that the loose reader accepts and
      whose every reachable entry ends at or before `data_end`; when only the loose
      reader accepts, the strict one reports `ExtentEscapesData`; and when both accept
      they produce the same file system, hence the same answer on every path. */
  lemma StrictRefinesLoose(image: Image)
    ensures var strict := Mount(image, Strict); var loose := Mount(image, Loose);
      && (loose.Ok? ==> Mounted(loose.value))
      && (strict.Ok? <==> loose.Ok? && AllWithin(image, SUPERBLOCK_LEN, RootLen(image), DataEnd(image)))
      && (loose.Ok? && strict.Err? ==> strict.error == ExtentEscapesData)
      && (strict.Ok? ==> strict == loose)
  {
    if SUPERBLOCK_LEN <= |image| && HeaderError(image, Loose).None? {
      WalkTableRefines(image, SUPERBLOCK_LEN, RootLen(image), SUPERBLOCK_LEN, 0, MAX_DEPTH, DataEnd(image));
    }
  }

  /** Tier 2 differs from loose in the declared size alone. */
  lemma Tier2RelaxesSize(image: Image)
    ensures Mount(image, Loose).Ok? <==>
      Mount(image, Tier2).Ok? && ReadU32(image, SB_TOTAL) == |image|
    ensures Mount(image, Loose).Ok? ==> Mount(image, Tier2) == Mount(image, Loose)
    ensures Mount(image, Tier2).Ok? ==> ReadU32(image, SB_TOTAL) <= |image|
  {
    if SUPERBLOCK_LEN <= |image| {
      assert Ceiling(image, Loose) == Ceiling(image, Tier2);
    }
  }

  // ---- Listing and lookup --------------------------------------------------------------------

  /** The node that the first entry of this name stands for. */
  function Lookup(entries: seq<DirEntry>, name: Name): Option<Node> {
    if entries == [] then None
    else
      var e := entries[0];
      if e.name != name then Lookup(entries[1..], name)
      else Some(if e.isDir then Dir(e.offset, e.length) else File(e.offset, e.length))
  }

  lemma {:induction false} FindIsLookup(image: Image, off: nat, i: nat, n: nat, name: Name)
    requires i <= n && off + DIRENT_LEN * n <= |image|
    ensures FindFrom(image, off, i, n, name) == Lookup(Listing(image, off, n)[i..], name)
    decreases n - i
  {
    hide EntryAt;
    var rest := Listing(image, off, n)[i..];
    if i < n {
      assert rest[1..] == Listing(image, off, n)[i + 1..];
      FindIsLookup(image, off, i + 1, n, name);
    }
  }

  lemma {:induction false} DescendAppend(image: Image, node: Node, a: seq<Name>, b: seq<Name>)
    requires NodeOk(image, node)
    ensures var r := Descend(image, node, a);
      Descend(image, node, a + b) == if r.Err? then r else Descend(image, r.value, b)
    decreases |a|
  {
    hide EntryAt;
    if a == [] {
      assert a + b == b;
    } else {
      assert (a + b)[1..] == a[1..] + b;
      if a[0] == [] {
        DescendAppend(image, node, a[1..], b);
      } else if node.Dir? {
        FindFromOk(image, node.offset, node.length, 0, a[0]);
        var child := FindFrom(image, node.offset, 0, node.length / DIRENT_LEN, a[0]);
        if child.Some? { DescendAppend(image, child.value, a[1..], b); }
      }
    }
  }

  /** What a directory lists is what can be reached through it: a name one level below
      resolves to its first listed entry, and to nothing if it is not listed. */
  lemma ListedIsReachable(fs: Fs, path: seq<byte>, name: Name)
    requires Mounted(fs) && ListDir(fs, path).Ok? && name != [] && SLASH !in name
    ensures var found := Lookup(ListDir(fs, path).value, name);
      Resolve(fs, path + [SLASH] + name) == if found.Some? then Ok(found.value) else Err(NotFound)
  {
    hide EntryAt, FindFrom, Listing, Lookup, TreeOk, Split;
    SplitJoin(path, name);
    SplitPlain(name);
    DescendAppend(fs.image, Root(fs), Split(path), [name]);
    var dir := Resolve(fs, path).value;
    var n := dir.length / DIRENT_LEN;
    ListedTable(fs.image, dir);
    FindIsLookup(fs.image, dir.offset, 0, n, name);
    assert Listing(fs.image, dir.offset, n)[0..] == Listing(fs.image, dir.offset, n);
    OneStep(fs.image, dir, name);
  }

  lemma ListedTable(image: Image, dir: Node)
    requires dir.Dir? && NodeOk(image, dir)
    ensures dir.offset + DIRENT_LEN * (dir.length / DIRENT_LEN) <= |image|
  {
  }

  lemma OneStep(image: Image, dir: Node, name: Name)
    requires dir.Dir? && NodeOk(image, dir) && name != []
    ensures var child := FindFrom(image, dir.offset, 0, dir.length / DIRENT_LEN, name);
      Descend(image, dir, [name]) == if child.None? then Err(NotFound) else Ok(child.value)
  {
    hide EntryAt, FindFrom, TreeOk;
    FindFromOk(image, dir.offset, dir.length, 0, name);
    assert [name][1..] == [];
  }
}
