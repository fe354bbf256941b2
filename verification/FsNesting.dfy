/** The depth cap of src/fs.rs, which keeps validation off the end of a kernel stack: how
    deep a tree nests, by the tree alone, decides what the cap does to a walk. */
module FsNesting {
  import opened Common
  import opened Paths
  import opened Fs
  import opened FsValidation

  // ---- Nesting ---------------------------------------------------------------------------------

  /** `path` picks a directory entry in the table at `off`, then one in that directory's
      table, and so on. */
  ghost predicate Chain(image: Image, off: nat, len: nat, path: seq<nat>)
    decreases |path|
  {
    path == [] ||
    (path[0] < len / 32 && off + 32 * (path[0] + 1) <= |image|
     && var e := Nth(image, off, path[0]);
     e.kind == 1 && Chain(image, e.offset, e.length, path[1..]))
  }

  /** The most directory entries one below another that start in this table. */
  ghost function Nesting(image: Image, off: nat, len: nat): nat
    requires TreeOk(image, off, len)
    decreases |image| - off, 1, 0
  {
    NestingFrom(image, off, len, 0)
  }

  ghost function NestingFrom(image: Image, off: nat, len: nat, i: nat): nat
    requires off + len <= |image| && len % DIRENT_LEN == 0 && i <= len / DIRENT_LEN
    requires forall k | i <= k < len / DIRENT_LEN :: ChildOk(image, off, len, Nth(image, off, k))
    decreases |image| - off, 0, len / DIRENT_LEN - i
  {
    if i == len / DIRENT_LEN then 0
    else
      var e := Nth(image, off, i);
      assert ChildOk(image, off, len, e);
      var below := if e.kind == 1 then 1 + Nesting(image, e.offset, e.length) else 0;
      Max(below, NestingFrom(image, off, len, i + 1))
  }

  /** No chain is longer. */
  lemma {:induction false} ChainBound(image: Image, off: nat, len: nat, path: seq<nat>)
    requires TreeOk(image, off, len) && Chain(image, off, len, path)
    ensures |path| <= Nesting(image, off, len)
    decreases |path|
  {
    hide EntryAt;
    if path != [] {
      var e := Nth(image, off, path[0]);
      assert ChildOk(image, off, len, e);
      ChainBound(image, e.offset, e.length, path[1..]);
      NestingAt(image, off, len, 0, path[0]);
    }
  }

  lemma {:induction false} NestingAt(image: Image, off: nat, len: nat, i: nat, k: nat)
    requires TreeOk(image, off, len) && i <= k < len / DIRENT_LEN && Nth(image, off, k).kind == 1
    ensures var e := Nth(image, off, k);
      && ChildOk(image, off, len, e) && TreeOk(image, e.offset, e.length)
      && 1 + Nesting(image, e.offset, e.length) <= NestingFrom(image, off, len, i)
    decreases k - i
  {
    hide EntryAt;
    assert ChildOk(image, off, len, Nth(image, off, i));
    assert ChildOk(image, off, len, Nth(image, off, k));
    if i < k { NestingAt(image, off, len, i + 1, k); }
  }

  /** Some chain is as long. */
  lemma {:induction false} LongestChain(image: Image, off: nat, len: nat) returns (path: seq<nat>)
    requires TreeOk(image, off, len)
    ensures Chain(image, off, len, path) && |path| == Nesting(image, off, len)
    decreases |image| - off, 1, 0
  {
    hide EntryAt;
    path := LongestFrom(image, off, len, 0);
  }

  lemma {:induction false} LongestFrom(image: Image, off: nat, len: nat, i: nat) returns (path: seq<nat>)
    requires TreeOk(image, off, len) && i <= len / DIRENT_LEN
    ensures Chain(image, off, len, path) && |path| == NestingFrom(image, off, len, i)
    decreases |image| - off, 0, len / DIRENT_LEN - i
  {
    hide EntryAt;
    path := [];
    if i < len / DIRENT_LEN {
      var e := Nth(image, off, i);
      assert ChildOk(image, off, len, e);
      path := LongestFrom(image, off, len, i + 1);
      if e.kind == 1 {
        var below := LongestChain(image, e.offset, e.length);
        if |below| + 1 > |path| {
          path := [i] + below;
          assert path[1..] == below;
        }
      }
    }
  }

  // ---- What a cap does ---------------------------------------------------------------------------

  /** A walk accepted under one cap, seen under another: the same walk if the tree fits,
      and otherwise `TooDeep`. */
  ghost predicate Capped(capped: Walk, accepted: Walk, fits: bool) {
    if fits then capped == accepted else capped.error == Some(TooDeep)
  }

  lemma {:induction false} WalkTableCapped(image: Image, off: nat, len: nat, highWater: nat, depth: nat, ceiling: int,
          cap: int, other: int)
    requires highWater <= |image|
    requires WalkTable(image, off, len, highWater, depth, Rules(ceiling, other)).error.None?
    ensures TreeOk(image, off, len)
    ensures Capped(WalkTable(image, off, len, highWater, depth, Rules(ceiling, cap)),
                   WalkTable(image, off, len, highWater, depth, Rules(ceiling, other)),
                   depth + Nesting(image, off, len) <= cap)
    decreases |image| - highWater, 0, 0
  {
    hide EntryAt;
    WalkTableOk(image, off, len, highWater, depth, Rules(ceiling, other));
    if depth <= cap && len > 0 {
      WalkEntriesCapped(image, off, len, 0, off + len, depth, ceiling, cap, other);
    }
  }

  lemma {:induction false} WalkEntriesCapped(image: Image, off: nat, len: nat, i: nat, highWater: nat, depth: nat,
          ceiling: int, cap: int, other: int)
    requires 0 < len && len % DIRENT_LEN == 0 && i <= len / DIRENT_LEN
    requires off + len <= highWater <= |image| && depth <= cap
    requires WalkEntries(image, off, i, len / DIRENT_LEN, highWater, depth, Rules(ceiling, other)).error.None?
    ensures forall k | i <= k < len / DIRENT_LEN :: ChildOk(image, off, len, Nth(image, off, k))
    ensures Capped(WalkEntries(image, off, i, len / DIRENT_LEN, highWater, depth, Rules(ceiling, cap)),
                   WalkEntries(image, off, i, len / DIRENT_LEN, highWater, depth, Rules(ceiling, other)),
                   depth + NestingFrom(image, off, len, i) <= cap)
    decreases |image| - highWater, 1, len / DIRENT_LEN - i
  {
    hide EntryAt;
    WalkEntriesOk(image, off, len, i, highWater, depth, Rules(ceiling, other));
    if i < len / DIRENT_LEN {
      var e := Nth(image, off, i);
      if e.kind == KIND_FILE {
        WalkEntriesCapped(image, off, len, i + 1, highWater, depth, ceiling, cap, other);
      } else {
        WalkTableCapped(image, e.offset, e.length, highWater, depth + 1, ceiling, cap, other);
        var c := WalkTable(image, e.offset, e.length, highWater, depth + 1, Rules(ceiling, other));
        WalkEntriesCapped(image, off, len, i + 1, c.highWater, depth, ceiling, cap, other);
      }
    }
  }

  /** The image passes every check of the reader but the depth cap. */
  ghost predicate Uncapped(image: Image, reader: Reader) {
    HeaderError(image, reader).None? && exists cap: int :: RootAccepted(image, reader, cap)
  }

  ghost predicate RootAccepted(image: Image, reader: Reader, cap: int)
    requires 16 <= |image|
  {
    WalkTable(image, 16, RootLen(image), 16, 0, Rules(Ceiling(image, reader), cap)).error.None?
  }

  /** An image is mounted exactly if it passes every other check and no more than 32
      directory entries lie one below another; if it fails the cap alone, the error is
      exactly `TooDeep`. */
  lemma MountIsCapped(image: Image, reader: Reader)
    ensures Mount(image, reader).Ok? ==> Uncapped(image, reader)
    ensures Uncapped(image, reader) ==>
      && TreeOk(image, 16, RootLen(image))
      && (Mount(image, reader).Ok? <==> Nesting(image, 16, RootLen(image)) <= 32)
      && (Mount(image, reader).Err? ==> Mount(image, reader).error == TooDeep)
  {
    if Mount(image, reader).Ok? { assert RootAccepted(image, reader, 32); }
    if Uncapped(image, reader) {
      var cap: int :| RootAccepted(image, reader, cap);
      WalkTableCapped(image, 16, RootLen(image), 16, 0, Ceiling(image, reader), 32, cap);
    }
  }

  /** In a mounted image no chain of directory entries is longer than 32, and an image with
      a longer one is not mounted. */
  lemma NoDeepChain(image: Image, reader: Reader, path: seq<nat>)
    requires 16 <= |image| && Chain(image, 16, RootLen(image), path) && |path| > 32
    ensures Mount(image, reader).Err?
    ensures Uncapped(image, reader) ==> Mount(image, reader).error == TooDeep
  {
    MountIsCapped(image, reader);
    if Uncapped(image, reader) { ChainBound(image, 16, RootLen(image), path); }
  }
}
