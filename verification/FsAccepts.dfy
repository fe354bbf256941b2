/** Which trees `validate_dir` accepts, and why it rejects the others: its traversal, with
    one high-water mark, a depth cap and a ceiling, against plain conditions on the tree. */
module FsAccepts {
  import opened Common
  import opened Paths
  import opened Fs
  import opened FsValidation
  import opened FsNesting

  // ---- Tables in order ---------------------------------------------------------------------------

  /** The tables of a tree, each before those below it, siblings in order of their entries. */
  ghost function Preorder(image: Image, off: nat, len: nat): (tables: seq<Table>)
    requires TreeOk(image, off, len)
    ensures |tables| > 0 && tables[0] == Table(off, len)
    decreases |image| - off, 1, 0
  {
    [Table(off, len)] + PreorderFrom(image, off, len, 0)
  }

  ghost function PreorderFrom(image: Image, off: nat, len: nat, i: nat): seq<Table>
    requires off + len <= |image| && len % DIRENT_LEN == 0 && i <= len / DIRENT_LEN
    requires forall k | i <= k < len / DIRENT_LEN :: ChildOk(image, off, len, Nth(image, off, k))
    decreases |image| - off, 0, len / DIRENT_LEN - i
  {
    if i == len / DIRENT_LEN then []
    else
      var e := Nth(image, off, i);
      assert ChildOk(image, off, len, e);
      (if e.kind == 1 then Preorder(image, e.offset, e.length) else []) + PreorderFrom(image, off, len, i + 1)
  }

  /** The first table begins at `from` or later, and each other one where the one before it
      ends or later. */
  ghost predicate InOrder(tables: seq<Table>, from: nat) {
    && (tables != [] ==> from <= tables[0].offset)
    && forall k | 0 < k < |tables| :: tables[k - 1].offset + tables[k - 1].length <= tables[k].offset
  }

  ghost function LastEnd(tables: seq<Table>, from: nat): nat {
    if tables == [] then from else tables[|tables| - 1].offset + tables[|tables| - 1].length
  }

  lemma InOrderAppend(a: seq<Table>, b: seq<Table>, from: nat)
    ensures InOrder(a + b, from) <==> InOrder(a, from) && InOrder(b, LastEnd(a, from))
    ensures LastEnd(a + b, from) == LastEnd(b, LastEnd(a, from))
  {
    if a == [] {
      assert a + b == b;
    } else if b == [] {
      assert a + b == a;
    } else {
      InOrderJoin(a, b, from);
    }
  }

  lemma InOrderJoin(a: seq<Table>, b: seq<Table>, from: nat)
    requires a != [] && b != []
    ensures InOrder(a + b, from) <==> InOrder(a, from) && InOrder(b, LastEnd(a, from))
    ensures LastEnd(a + b, from) == LastEnd(b, LastEnd(a, from))
  {
    var c := a + b;
    if InOrder(c, from) {
      assert c[|a| - 1] == a[|a| - 1] && c[|a|] == b[0];
      forall k | 0 < k < |a| ensures a[k - 1].offset + a[k - 1].length <= a[k].offset {
        assert c[k - 1] == a[k - 1] && c[k] == a[k];
      }
      forall k | 0 < k < |b| ensures b[k - 1].offset + b[k - 1].length <= b[k].offset {
        assert c[|a| + k - 1] == b[k - 1] && c[|a| + k] == b[k];
      }
    }
  }

  // ---- Acceptance --------------------------------------------------------------------------------

  /** How a walk of a well-formed tree ends: accepted exactly if the tree is not nested too
      deep, every entry ends by the ceiling and the tables come in order; otherwise with
      the error of a condition that fails. */
  ghost predicate Decided(w: Walk, shallow: bool, within: bool, tables: seq<Table>, from: nat) {
    && (w.error.None? <==> shallow && within && InOrder(tables, from))
    && (w.error.None? ==> w.highWater == LastEnd(tables, from))
    && (w.error.Some? ==>
          || (w.error.value == TooDeep && !shallow)
          || (w.error.value == ExtentEscapesData && !within)
          || (w.error.value == DirNotForward && !InOrder(tables, from)))
  }

  lemma {:induction false} WalkTableDecided(image: Image, off: nat, len: nat, highWater: nat, depth: nat, rules: Rules)
    requires highWater <= |image| && TreeOk(image, off, len)
    ensures Decided(WalkTable(image, off, len, highWater, depth, rules),
                    depth + Nesting(image, off, len) <= rules.maxDepth,
                    AllWithin(image, off, len, rules.ceiling), Preorder(image, off, len), highWater)
    decreases |image| - off, 1, 0
  {
    hide EntryAt;
    var rest := PreorderFrom(image, off, len, 0);
    InOrderAppend([Table(off, len)], rest, highWater);
    if highWater <= off && depth <= rules.maxDepth {
      if len > 0 {
        WalkEntriesDecided(image, off, len, 0, off + len, depth, rules);
      }
    }
  }

  lemma {:induction false} WalkEntriesDecided(image: Image, off: nat, len: nat, i: nat, highWater: nat, depth: nat,
          rules: Rules)
    requires 0 < len && TreeOk(image, off, len) && i <= len / DIRENT_LEN
    requires off + len <= highWater <= |image| && depth <= rules.maxDepth
    ensures Decided(WalkEntries(image, off, i, len / DIRENT_LEN, highWater, depth, rules),
                    depth + NestingFrom(image, off, len, i) <= rules.maxDepth,
                    EntriesWithin(image, off, len, i, rules.ceiling), PreorderFrom(image, off, len, i), highWater)
    decreases |image| - off, 0, len / DIRENT_LEN - i
  {
    hide EntryAt, InOrder, LastEnd;
    if i == len / DIRENT_LEN {
      NoTables(highWater);
    } else {
      var e := Nth(image, off, i);
      assert ChildOk(image, off, len, e);
      WithinSplits(image, off, len, i, rules.ceiling);
      if e.kind == KIND_FILE {
        FilesHaveNone(image, off, len, i);
        WalkEntriesDecided(image, off, len, i + 1, highWater, depth, rules);
      } else {
        InOrderAppend(Preorder(image, e.offset, e.length), PreorderFrom(image, off, len, i + 1), highWater);
        WalkTableDecided(image, e.offset, e.length, highWater, depth + 1, rules);
        var c := WalkTable(image, e.offset, e.length, highWater, depth + 1, rules);
        if c.error.None? {
          WalkEntriesDecided(image, off, len, i + 1, c.highWater, depth, rules);
        }
      }
    }
  }

  lemma NoTables(from: nat)
    ensures InOrder([], from) && LastEnd([], from) == from
  {
  }

  lemma FilesHaveNone(image: Image, off: nat, len: nat, i: nat)
    requires TreeOk(image, off, len) && i < len / DIRENT_LEN && Nth(image, off, i).kind == KIND_FILE
    ensures PreorderFrom(image, off, len, i) == PreorderFrom(image, off, len, i + 1)
    ensures NestingFrom(image, off, len, i) == NestingFrom(image, off, len, i + 1)
  {
    hide EntryAt;
    assert ChildOk(image, off, len, Nth(image, off, i));
  }

  /** The i-th entry, and those behind it. */
  lemma WithinSplits(image: Image, off: nat, len: nat, i: nat, bound: int)
    requires TreeOk(image, off, len) && i < len / DIRENT_LEN
    ensures var e := Nth(image, off, i);
      && ChildOk(image, off, len, e)
      && (EntriesWithin(image, off, len, i, bound) <==>
            e.End() <= bound && (e.kind == KIND_DIR ==> AllWithin(image, e.offset, e.length, bound))
            && EntriesWithin(image, off, len, i + 1, bound))
  {
    hide EntryAt, AllWithin;
    var e := Nth(image, off, i);
    assert ChildOk(image, off, len, e);
  }

  /** Mounting in full: after the header checks, an image is accepted exactly if its tree is
      well formed (entries inside the image, kinds 0 and 1, tables whole and behind their
      parents), nests at most 32 deep, keeps to the reader's ceiling, and its tables
      follow one another without overlap; and if a well-formed tree fails one of the
      last three conditions alone, that is the error. */
  lemma MountExactly(image: Image, reader: Reader)
    requires HeaderError(image, reader).None?
    ensures Mount(image, reader).Ok? <==>
      && TreeOk(image, 16, RootLen(image))
      && Nesting(image, 16, RootLen(image)) <= 32
      && AllWithin(image, 16, RootLen(image), Ceiling(image, reader))
      && InOrder(Preorder(image, 16, RootLen(image)), 16)
    ensures TreeOk(image, 16, RootLen(image)) && Mount(image, reader).Err? ==>
      var e := Mount(image, reader).error;
      || (e == TooDeep && Nesting(image, 16, RootLen(image)) > 32)
      || (e == ExtentEscapesData && !AllWithin(image, 16, RootLen(image), Ceiling(image, reader)))
      || (e == DirNotForward && !InOrder(Preorder(image, 16, RootLen(image)), 16))
  {
    var rules := Rules(Ceiling(image, reader), 32);
    if TreeOk(image, 16, RootLen(image)) {
      WalkTableDecided(image, 16, RootLen(image), 16, 0, rules);
    } else if WalkTable(image, 16, RootLen(image), 16, 0, rules).error.None? {
      WalkTableOk(image, 16, RootLen(image), 16, 0, rules);
    }
  }
}
