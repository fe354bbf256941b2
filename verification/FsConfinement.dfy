/** The strict reader's confinement: what it reports depends only on the bytes below
    `data_end`, exactly when the root table itself ends there or before. */
module FsConfinement {
  import opened Common
  import opened LittleEndian
  import opened Paths
  import opened Fs
  import opened FsValidation

  /** Two images of one length that agree on their first `d` bytes. */
  ghost predicate Agree(a: Image, b: Image, d: nat) {
    |a| == |b| && d <= |a| && a[..d] == b[..d]
  }

  lemma AgreeNth(a: Image, b: Image, d: nat, off: nat, i: nat)
    requires Agree(a, b, d) && off + DIRENT_LEN * (i + 1) <= d
    ensures Nth(a, off, i) == Nth(b, off, i)
  {
    var base := off + DIRENT_LEN * i;
    assert forall k | 0 <= k < d :: a[k] == a[..d][k] && b[k] == b[..d][k];
    assert a[base..base + NAME_LEN] == b[base..base + NAME_LEN];
  }

  lemma AgreeHeader(a: Image, b: Image, d: nat)
    requires Agree(a, b, d) && SUPERBLOCK_LEN <= d
    ensures HeaderError(a, Strict) == HeaderError(b, Strict)
    ensures DataEnd(a) == DataEnd(b) && RootLen(a) == RootLen(b) && ReadU16(a, SB_COUNT) == ReadU16(b, SB_COUNT)
  {
    assert forall k | 0 <= k < d :: a[k] == a[..d][k] && b[k] == b[..d][k];
    assert a[..4] == b[..4];
  }

  lemma {:induction false} WalkTableAgrees(a: Image, b: Image, off: nat, len: nat, highWater: nat, depth: nat,
          rules: Rules)
    requires 0 <= rules.ceiling && Agree(a, b, rules.ceiling) && off + len <= rules.ceiling && highWater <= |a|
    ensures WalkTable(a, off, len, highWater, depth, rules) == WalkTable(b, off, len, highWater, depth, rules)
    decreases |a| - highWater, 0, 0
  {
    hide EntryAt;
    if TableError(a, off, len, highWater, depth, rules).None? && len > 0 {
      WalkEntriesAgree(a, b, off, 0, len / DIRENT_LEN, off + len, depth, rules);
    }
  }

  lemma {:induction false} WalkEntriesAgree(a: Image, b: Image, off: nat, i: nat, n: nat, highWater: nat, depth: nat,
          rules: Rules)
    requires 0 <= rules.ceiling && Agree(a, b, rules.ceiling) && highWater <= |a|
    requires i <= n && off + DIRENT_LEN * n <= rules.ceiling
    ensures WalkEntries(a, off, i, n, highWater, depth, rules) == WalkEntries(b, off, i, n, highWater, depth, rules)
    decreases |a| - highWater, 1, n - i
  {
    hide EntryAt;
    if i < n {
      AgreeNth(a, b, rules.ceiling, off, i);
      var e := Nth(a, off, i);
      if ExtentError(a, e, rules.ceiling).None? {
        if e.kind == KIND_FILE {
          WalkEntriesAgree(a, b, off, i + 1, n, highWater, depth, rules);
        } else if e.kind == KIND_DIR {
          WalkTableAgrees(a, b, e.offset, e.length, highWater, depth + 1, rules);
          var c := WalkTable(a, e.offset, e.length, highWater, depth + 1, rules);
          if c.error.None? {
            WalkEntriesAgree(a, b, off, i + 1, n, c.highWater, depth, rules);
          }
        }
      }
    }
  }

  // ---- The path readers stay below the bound --------------------------------

  /** A node whose extent, and everything below it, ends at or before `d`. */
  ghost predicate NodeWithin(image: Image, node: Node, d: nat) {
    && NodeOk(image, node)
    && node.offset + node.length <= d
    && (node.Dir? ==> AllWithin(image, node.offset, node.length, d))
  }

  lemma {:induction false} FindWithin(image: Image, off: nat, len: nat, i: nat, name: Name, d: nat)
    requires TreeOk(image, off, len) && AllWithin(image, off, len, d) && i <= len / DIRENT_LEN
    ensures var r := FindFrom(image, off, i, len / DIRENT_LEN, name); r.Some? ==> NodeWithin(image, r.value, d)
    decreases len / DIRENT_LEN - i
  {
    hide EntryAt;
    if i < len / DIRENT_LEN {
      assert ChildOk(image, off, len, Nth(image, off, i));
      assert EntriesWithin(image, off, len, 0, d);
      FindWithin(image, off, len, i + 1, name, d);
    }
  }

  lemma {:induction false} DescendWithin(image: Image, node: Node, comps: seq<Name>, d: nat)
    requires NodeWithin(image, node, d)
    ensures var r := Descend(image, node, comps); r.Ok? ==> NodeWithin(image, r.value, d)
    decreases |comps|
  {
    hide EntryAt;
    if comps != [] {
      if comps[0] == [] {
        DescendWithin(image, node, comps[1..], d);
      } else if node.Dir? {
        FindWithin(image, node.offset, node.length, 0, comps[0], d);
        FindFromOk(image, node.offset, node.length, 0, comps[0]);
        var child := FindFrom(image, node.offset, 0, node.length / DIRENT_LEN, comps[0]);
        if child.Some? {
          DescendWithin(image, child.value, comps[1..], d);
        }
      }
    }
  }

  /** Under a strict mount no path, however spelled, names a byte at or past `data_end`,
      directories' own tables included, unless it names the root and the root table does. */
  lemma StrictConfines(image: Image, path: seq<byte>)
    requires Mount(image, Strict).Ok?
    ensures Mounted(Mount(image, Strict).value)
    ensures var r := Resolve(Mount(image, Strict).value, path);
      r.Ok? && (r.value != Root(Mount(image, Strict).value) || RootEnd(image) <= DataEnd(image)) ==>
        r.value.offset + r.value.length <= DataEnd(image)
  {
    hide EntryAt, HeaderError, WalkTable, TreeOk;
    StrictRefinesLoose(image);
    var fs := Mount(image, Strict).value;
    var d := DataEnd(image);
    if RootEnd(image) <= d {
      DescendWithin(image, Root(fs), Split(path), d);
    } else {
      BelowRootWithin(image, Split(path), d);
    }
  }

  /** Even when the root table itself sticks out past `d`, nothing found from it does. */
  lemma {:induction false} BelowRootWithin(image: Image, comps: seq<Name>, d: nat)
    requires SUPERBLOCK_LEN <= |image| && TreeOk(image, SUPERBLOCK_LEN, RootLen(image))
    requires AllWithin(image, SUPERBLOCK_LEN, RootLen(image), d)
    ensures var r := Descend(image, Dir(SUPERBLOCK_LEN, RootLen(image)), comps);
      r.Ok? && r.value != Dir(SUPERBLOCK_LEN, RootLen(image)) ==> r.value.offset + r.value.length <= d
    decreases |comps|
  {
    hide EntryAt;
    if comps != [] {
      if comps[0] == [] {
        BelowRootWithin(image, comps[1..], d);
      } else {
        FindWithin(image, SUPERBLOCK_LEN, RootLen(image), 0, comps[0], d);
        FindFromOk(image, SUPERBLOCK_LEN, RootLen(image), 0, comps[0]);
        var child := FindFrom(image, SUPERBLOCK_LEN, 0, RootLen(image) / DIRENT_LEN, comps[0]);
        if child.Some? {
          DescendWithin(image, child.value, comps[1..], d);
        }
      }
    }
  }

  // ---- Non-interference ------------------------------------------------------

  lemma {:induction false} FindAgrees(a: Image, b: Image, off: nat, i: nat, n: nat, name: Name, d: nat)
    requires Agree(a, b, d) && i <= n && off + DIRENT_LEN * n <= d
    ensures FindFrom(a, off, i, n, name) == FindFrom(b, off, i, n, name)
    decreases n - i
  {
    hide EntryAt;
    if i < n {
      AgreeNth(a, b, d, off, i);
      FindAgrees(a, b, off, i + 1, n, name, d);
    }
  }

  lemma {:induction false} DescendAgrees(a: Image, b: Image, node: Node, comps: seq<Name>, d: nat)
    requires Agree(a, b, d) && NodeWithin(a, node, d) && NodeWithin(b, node, d)
    ensures Descend(a, node, comps) == Descend(b, node, comps)
    decreases |comps|
  {
    hide EntryAt;
    if comps != [] {
      if comps[0] == [] {
        DescendAgrees(a, b, node, comps[1..], d);
      } else if node.Dir? {
        FindAgrees(a, b, node.offset, 0, node.length / DIRENT_LEN, comps[0], d);
        FindWithin(a, node.offset, node.length, 0, comps[0], d);
        FindWithin(b, node.offset, node.length, 0, comps[0], d);
        var child := FindFrom(a, node.offset, 0, node.length / DIRENT_LEN, comps[0]);
        if child.Some? {
          DescendAgrees(a, b, child.value, comps[1..], d);
        }
      }
    }
  }

  /** The whole observable outcome of a strict mount: its result, error included, and
      the answer to `list_dir` and `read_path` on every path. */
  ghost predicate SameStrictBehaviour(a: Image, b: Image) {
    var ma := Mount(a, Strict);
    var mb := Mount(b, Strict);
    && (ma.Ok? <==> mb.Ok?)
    && (ma.Err? && mb.Err? ==> ma.error == mb.error)
    && (ma.Ok? && mb.Ok? ==>
         && Mounted(ma.value) && Mounted(mb.value)
         && forall path: seq<byte> ::
              && ListDir(ma.value, path) == ListDir(mb.value, path)
              && ReadPath(ma.value, path) == ReadPath(mb.value, path))
  }

  lemma StrictNonInterference(a: Image, b: Image)
    requires SUPERBLOCK_LEN <= |a| && RootEnd(a) <= DataEnd(a)
    requires Agree(a, b, DataEnd(a))
    ensures SameStrictBehaviour(a, b)
  {
    hide EntryAt, WalkTable, TreeOk, AllWithin, Descend, Split;
    var d := DataEnd(a);
    StrictRefinesLoose(a);
    StrictRefinesLoose(b);
    AgreeHeader(a, b, d);
    WalkTableAgrees(a, b, SUPERBLOCK_LEN, RootLen(a), SUPERBLOCK_LEN, 0, Rules(d, MAX_DEPTH));
    if Mount(a, Strict).Ok? {
      var fa, fb := Mount(a, Strict).value, Mount(b, Strict).value;
      forall path: seq<byte>
        ensures ListDir(fa, path) == ListDir(fb, path) && ReadPath(fa, path) == ReadPath(fb, path)
      {
        PathAgrees(a, b, fa, fb, path);
      }
    }
  }

  lemma PathAgrees(a: Image, b: Image, fa: Fs, fb: Fs, path: seq<byte>)
    requires SUPERBLOCK_LEN <= |a| && RootEnd(a) <= DataEnd(a) && Agree(a, b, DataEnd(a))
    requires Mount(a, Strict) == Ok(fa) && Mount(b, Strict) == Ok(fb)
    requires Mounted(fa) && Mounted(fb)
    ensures ListDir(fa, path) == ListDir(fb, path) && ReadPath(fa, path) == ReadPath(fb, path)
  {
    hide EntryAt, HeaderError, WalkTable, TreeOk, Descend, Split, AllWithin;
    var d := DataEnd(a);
    StrictRefinesLoose(a);
    StrictRefinesLoose(b);
    AgreeHeader(a, b, d);
    DescendAgrees(a, b, Root(fa), Split(path), d);
    StrictConfines(a, path);
    var r := Resolve(fa, path);
    if r.Ok? {
      var off, len := r.value.offset, r.value.length;
      if r.value.File? {
        assert a[off..off + len] == a[..d][off..off + len] == b[..d][off..off + len] == b[off..off + len];
      } else {
        forall i | 0 <= i < len / DIRENT_LEN ensures Nth(a, off, i) == Nth(b, off, i) {
          AgreeNth(a, b, d, off, i);
        }
        assert Listing(a, off, len / DIRENT_LEN) == Listing(b, off, len / DIRENT_LEN);
      }
    }
  }

  /** The image with the last byte of its root table, the top byte of a kind field, set. */
  ghost function SpoilRoot(image: Image): (b: Image)
    requires SUPERBLOCK_LEN <= |image| && RootEnd(image) <= |image|
  {
    image[RootEnd(image) - 1 := 0xFF]
  }

  lemma MountedRootKind(image: Image, i: nat)
    requires Mount(image, Strict).Ok? && i < RootLen(image) / DIRENT_LEN
    ensures Nth(image, SUPERBLOCK_LEN, i).kind <= 1
  {
    StrictRefinesLoose(image);
    assert ChildOk(image, SUPERBLOCK_LEN, RootLen(image), Nth(image, SUPERBLOCK_LEN, i));
  }

  lemma SpoiledRootFails(image: Image)
    requires Mount(image, Strict).Ok? && RootEnd(image) > SUPERBLOCK_LEN
    ensures !Mount(SpoilRoot(image), Strict).Ok?
  {
    var b := SpoilRoot(image);
    var last := RootLen(image) / DIRENT_LEN - 1;
    assert RootLen(b) == RootLen(image);
    assert b[RootEnd(image) - 1] == 0xFF;
    assert Nth(b, SUPERBLOCK_LEN, last).kind >= 0xFF00_0000;
    if Mount(b, Strict).Ok? {
      MountedRootKind(b, last);
    }
  }

  /** The hypothesis on the root table cannot be dropped: for a mounted image, the bytes
      past `data_end` are unobservable if and only if the root table ends there or before. */
  lemma NonInterferenceExactly(image: Image)
    requires Mount(image, Strict).Ok?
    ensures (forall b: Image | Agree(image, b, DataEnd(image)) :: SameStrictBehaviour(image, b))
      <==> RootEnd(image) <= DataEnd(image)
  {
    if RootEnd(image) <= DataEnd(image) {
      forall b: Image | Agree(image, b, DataEnd(image)) ensures SameStrictBehaviour(image, b) {
        StrictNonInterference(image, b);
      }
    } else {
      var b := SpoilRoot(image);
      assert Agree(image, b, DataEnd(image));
      SpoiledRootFails(image);
      assert !SameStrictBehaviour(image, b);
    }
  }

  /** A superblock with `data_end` 16 and one root entry. */
  const OPEN_SUPERBLOCK: seq<byte> := MAGIC + [3, 0, 1, 0] + [48, 0, 0, 0] + [16, 0, 0, 0]

  /** With it an all-zero entry: an empty nameless file. */
  function OpenImage(): (image: Image)
    ensures |image| == 48
  {
    OPEN_SUPERBLOCK + Zeros(DIRENT_LEN)
  }

  lemma {:induction false} ZerosAre(n: nat, k: nat)
    requires k < n
    ensures Zeros(n)[k] == 0
  {
    if k > 0 { ZerosAre(n - 1, k - 1); }
  }

  lemma OpenHeader()
    ensures HeaderError(OpenImage(), Strict).None?
    ensures DataEnd(OpenImage()) == 16 && RootLen(OpenImage()) == DIRENT_LEN
  {
    hide Zeros;
    var image := OpenImage();
    assert image[..16] == OPEN_SUPERBLOCK;
    assert image[..4] == image[..16][..4] == MAGIC;
  }

  lemma OpenEntry()
    ensures var e := Nth(OpenImage(), SUPERBLOCK_LEN, 0); e.End() == 0 && e.kind == KIND_FILE
  {
    hide EntryName, Zeros;
    var image := OpenImage();
    forall i | SUPERBLOCK_LEN <= i < 48 ensures image[i] == 0 {
      ZerosAre(DIRENT_LEN, i - SUPERBLOCK_LEN);
    }
    var base := SUPERBLOCK_LEN;
    assert ReadU32(image, base + ENT_OFFSET) == 0;
    assert ReadU32(image, base + ENT_LENGTH) == 0;
    assert ReadU32(image, base + ENT_KIND) == 0;
  }

  lemma OneFileScans(image: Image, off: nat, highWater: nat, depth: nat, rules: Rules)
    requires off + DIRENT_LEN <= |image| && highWater <= |image|
    requires var e := Nth(image, off, 0); e.kind == KIND_FILE && ExtentError(image, e, rules.ceiling).None?
    ensures WalkEntries(image, off, 0, 1, highWater, depth, rules).error.None?
  {
    hide Nth, ExtentError;
    assert WalkEntries(image, off, 1, 1, highWater, depth, rules).error.None?;
  }

  lemma OpenImageMounts()
    ensures Mount(OpenImage(), Strict).Ok?
  {
    hide OpenImage, Nth, DataEnd, RootLen, HeaderError, WalkEntries;
    OpenHeader();
    OpenEntry();
    OneFileScans(OpenImage(), SUPERBLOCK_LEN, 48, 0, Rules(16, MAX_DEPTH));
  }

  /** The failing case exists: strict `mount` accepts an image whose root table runs past
      `data_end`, and its answers depend on the bytes there. */
  lemma OpenImageInterferes()
    ensures Mount(OpenImage(), Strict).Ok? && RootEnd(OpenImage()) > DataEnd(OpenImage())
    ensures exists b: Image | Agree(OpenImage(), b, DataEnd(OpenImage())) :: !SameStrictBehaviour(OpenImage(), b)
  {
    hide OpenImage, Mount, SameStrictBehaviour;
    OpenHeader();
    OpenImageMounts();
    NonInterferenceExactly(OpenImage());
  }
}
