/** The shape of the table memory. Every table frame has one place, the indices that lead
    to it from the root, so the tables form a tree; and what each kind of entry write
    does to all three walks at once. */
module PageTree {
  import opened Common
  import opened PageWalk

  type Places = map<Frame, seq<nat>>

  /** The entry at (f, i) is a link to a lower table. */
  ghost predicate Links(mem: Memory, place: Places, f: Frame, i: nat)
    requires f in place && |place[f]| <= 3
  {
    Present(EntryOf(mem, f, i)) && !EndsWalk(EntryOf(mem, f, i), 3 - |place[f]|)
  }

  ghost predicate Placed(mem: Memory, place: Places, root: Frame) {
    && (forall f :: f in mem <==> f in place)
    && root in place && place[root] == []
    && (forall f | f in place :: |place[f]| <= 3 && |mem[f]| == TABLE_LEN && f.addr < IDENTITY_LIMIT && AddrOf(f.addr) == f.addr)
  }

  /** Links are writable and lead to tables, each one index further down. */
  ghost predicate Descending(mem: Memory, place: Places, root: Frame)
    requires Placed(mem, place, root)
  {
    forall f, i | f in place && 0 <= i < TABLE_LEN && Links(mem, place, f, i) ::
      Writable(mem[f][i]) && NextTable(mem[f][i]) in place && place[NextTable(mem[f][i])] == place[f] + [i]
  }

  /** Large pages stand in the identity window's PD only. */
  ghost predicate HugeInWindow(mem: Memory, place: Places, root: Frame)
    requires Placed(mem, place, root)
  {
    forall f, i | f in place && 0 <= i < TABLE_LEN && |place[f]| < 3 && Present(mem[f][i]) && Huge(mem[f][i]) ::
      place[f] == [0, 0]
  }

  /** Entry i of table f links table g. */
  ghost predicate LinksTo(mem: Memory, place: Places, f: Frame, i: nat, g: Frame) {
    f in place && |place[f]| <= 3 && i < TABLE_LEN && Links(mem, place, f, i) && NextTable(EntryOf(mem, f, i)) == g
  }

  /** Every table but the root is linked from a table. */
  ghost predicate AllLinked(mem: Memory, place: Places, root: Frame) {
    forall g | g in place && g != root :: exists f, i: nat :: LinksTo(mem, place, f, i, g)
  }

  ghost predicate Tree(mem: Memory, place: Places, root: Frame) {
    && Placed(mem, place, root) && Descending(mem, place, root) && HugeInWindow(mem, place, root)
    && AllLinked(mem, place, root)
  }

  /** The three tables that carry the identity window. */
  ghost predicate Window(mem: Memory, place: Places, root: Frame, pdpt: Frame, pd: Frame)
    requires Tree(mem, place, root)
  {
    && Links(mem, place, root, 0) && NextTable(mem[root][0]) == pdpt
    && pdpt in place && place[pdpt] == [0]
    && Links(mem, place, pdpt, 0) && NextTable(mem[pdpt][0]) == pd
    && pd in place && place[pd] == [0, 0]
    && (forall i | 0 <= i < TABLE_LEN :: mem[pd][i] == IdentityEntry(i))
  }

  /** Table `t` lies on the path of `virt`, at `level`. */
  ghost predicate OnPath(place: Places, t: Frame, virt: bv64, level: nat)
    requires level < 4
  {
    t in place && place[t] == Path(virt)[..3 - level]
  }

  /** From a table on the path, a link leads to the next table on the path. */
  lemma NextOnPath(mem: Memory, place: Places, root: Frame, t: Frame, virt: bv64, level: nat)
    requires Tree(mem, place, root) && 0 < level < 4 && OnPath(place, t, virt, level)
    requires Present(EntryOf(mem, t, Index(virt, level))) && !EndsWalk(EntryOf(mem, t, Index(virt, level)), level)
    ensures OnPath(place, NextTable(EntryOf(mem, t, Index(virt, level))), virt, level - 1)
  {
    hide Writable, Present, Huge, AddrOf, NextTable, Index, AllLinked;
    assert Links(mem, place, t, Index(virt, level));
    assert Path(virt)[..3 - level] + [Path(virt)[3 - level]] == Path(virt)[..4 - level];
  }

  /** Replace entry i of table f. */
  ghost function Put(mem: Memory, f: Frame, i: nat, w: bv64): Memory
    requires f in mem && i < |mem[f]|
  {
    mem[f := mem[f][i := w]]
  }

  lemma EntryPut(mem: Memory, f: Frame, i: nat, w: bv64, t: Frame, j: nat)
    requires f in mem && i < |mem[f]|
    ensures EntryOf(Put(mem, f, i, w), t, j) == if t == f && j == i then w else EntryOf(mem, t, j)
  {
  }

  // ---- The tables form a tree ----------------------------------------------------------

  /** Two tables never have the same place. */
  lemma {:induction false} PlacesDiffer(mem: Memory, place: Places, root: Frame, g: Frame, h: Frame)
    requires Tree(mem, place, root) && g in place && h in place && place[g] == place[h]
    ensures g == h
    decreases |place[g]|
  {
    hide AllLinked, Links, NextTable;
    if g == root || h == root {
      if g != root { var f, i := LinkedPlace(mem, place, root, g); }
      if h != root { var f, i := LinkedPlace(mem, place, root, h); }
    } else {
      var f, i := LinkedPlace(mem, place, root, g);
      var f', i' := LinkedPlace(mem, place, root, h);
      assert place[f] == place[g][..|place[g]| - 1] && place[f'] == place[h][..|place[h]| - 1];
      assert i == place[g][|place[g]| - 1] && i' == place[h][|place[h]| - 1];
      PlacesDiffer(mem, place, root, f, f');
    }
  }

  /** A table other than the root lies one index below the table that links it. */
  lemma LinkedPlace(mem: Memory, place: Places, root: Frame, g: Frame) returns (f: Frame, i: nat)
    requires Tree(mem, place, root) && g in place && g != root
    ensures LinksTo(mem, place, f, i, g) && place[g] == place[f] + [i]
  {
    hide Links, NextTable;
    f, i :| LinksTo(mem, place, f, i, g);
    assert NextTable(mem[f][i]) == g;
  }

  /** The table that a path of indices leads to, from the root along present entries. */
  ghost function Lead(mem: Memory, root: Frame, path: seq<nat>): Option<Frame>
    decreases |path|
  {
    if path == [] then Some(root)
    else
      var above := Lead(mem, root, path[..|path| - 1]);
      if above.None? || !Present(EntryOf(mem, above.value, path[|path| - 1])) then None
      else Some(NextTable(EntryOf(mem, above.value, path[|path| - 1])))
  }

  /** Every table is reached from the root along its place, and along no other. */
  lemma {:induction false} PlaceLeads(mem: Memory, place: Places, root: Frame, g: Frame)
    requires Tree(mem, place, root) && g in place
    ensures Lead(mem, root, place[g]) == Some(g)
    ensures forall h | h in place && place[h] == place[g] :: h == g
    decreases |place[g]|
  {
    hide AllLinked, NextTable, Present, EntryOf;
    forall h | h in place && place[h] == place[g] ensures h == g {
      PlacesDiffer(mem, place, root, h, g);
    }
    if g != root {
      var f, i := LinkedPlace(mem, place, root, g);
      assert (place[f] + [i])[..|place[f]|] == place[f];
      PlaceLeads(mem, place, root, f);
    }
  }

  // ---- Loosening a link: OR-ing USER into it --------------------------------------------

  /** A table stays linked if its links still lead where they led. */
  lemma StaysLinked(mem: Memory, mem': Memory, place: Places, place': Places, root: Frame, g: Frame)
    requires AllLinked(mem, place, root) && g in place && g != root
    requires forall f, i: nat | LinksTo(mem, place, f, i, g) :: LinksTo(mem', place', f, i, g)
    ensures exists f, i: nat :: LinksTo(mem', place', f, i, g)
  {
    hide LinksTo;
    var f, i: nat :| LinksTo(mem, place, f, i, g);
    assert LinksTo(mem', place', f, i, g);
  }

  lemma PutLinked(mem: Memory, place: Places, root: Frame, f: Frame, i: nat, w: bv64)
    requires AllLinked(mem, place, root) && f in mem && i < |mem[f]| && f in place && |place[f]| <= 3
    requires Links(mem, place, f, i) ==>
      Present(w) && !EndsWalk(w, 3 - |place[f]|) && NextTable(w) == NextTable(mem[f][i])
    ensures AllLinked(Put(mem, f, i, w), place, root)
  {
    hide AllLinked, Present, NextTable, Put, EntryOf, EndsWalk;
    EntryIs(mem, f, i);
    forall g | g in place && g != root
      ensures exists h, j: nat :: LinksTo(Put(mem, f, i, w), place, h, j, g)
    {
      forall h, j: nat | LinksTo(mem, place, h, j, g) ensures LinksTo(Put(mem, f, i, w), place, h, j, g) {
        EntryPut(mem, f, i, w, h, j);
      }
      StaysLinked(mem, Put(mem, f, i, w), place, place, root, g);
    }
    LinkedAll(Put(mem, f, i, w), place, root);
  }

  lemma LinkedAll(mem: Memory, place: Places, root: Frame)
    requires forall g | g in place && g != root :: exists f, i: nat :: LinksTo(mem, place, f, i, g)
    ensures AllLinked(mem, place, root)
  {
    hide LinksTo;
  }

  lemma AttachLinked(mem: Memory, place: Places, root: Frame, f: Frame, i: nat, g: Frame, w: bv64)
    requires AllLinked(mem, place, root) && f in mem && i < |mem[f]| && f in place && |place[f]| < 3 && i < TABLE_LEN
    requires g !in mem && g !in place && !Present(mem[f][i]) && Present(w) && !Huge(w) && NextTable(w) == g
    ensures AllLinked(Attach(mem, f, i, g, w), place[g := place[f] + [i]], root)
  {
    hide AllLinked, Present, Huge, NextTable, Attach, EntryOf;
    EntryIs(mem, f, i);
    var mem', place' := Attach(mem, f, i, g, w), place[g := place[f] + [i]];
    forall h | h in place' && h != root
      ensures exists k, j: nat :: LinksTo(mem', place', k, j, h)
    {
      if h == g {
        EntryAttach(mem, f, i, g, w, f, i);
        assert LinksTo(mem', place', f, i, g);
      } else {
        forall k, j: nat | LinksTo(mem, place, k, j, h) ensures LinksTo(mem', place', k, j, h) {
          EntryAttach(mem, f, i, g, w, k, j);
        }
        StaysLinked(mem, mem', place, place', root, h);
      }
    }
    LinkedAll(mem', place', root);
  }

  lemma LoosenTree(mem: Memory, place: Places, root: Frame, f: Frame, i: nat)
    requires Tree(mem, place, root) && f in place && i < TABLE_LEN && Links(mem, place, f, i)
    ensures Tree(Put(mem, f, i, Loosened(mem[f][i])), place, root)
  {
    hide AllLinked, LinksTo, Present, Huge, AddrOf, NextTable, User, Loosened;
    UserBitOnly(mem[f][i]);
    var w := Loosened(mem[f][i]);
    var mem' := Put(mem, f, i, w);
    PutLinked(mem, place, root, f, i, w);
    forall g, j | g in place && 0 <= j < TABLE_LEN && Links(mem', place, g, j)
      ensures Writable(mem'[g][j]) && NextTable(mem'[g][j]) in place && place[NextTable(mem'[g][j])] == place[g] + [j]
    {
      assert Links(mem, place, g, j);
    }
  }

  /** It changes no translation, no leaf's user bit, and revokes nothing. */
  lemma {:induction false} LoosenKeeps(mem: Memory, place: Places, root: Frame, f: Frame, i: nat, t: Frame, v: bv64,
          level: nat)
    requires Tree(mem, place, root) && f in place && i < TABLE_LEN && Links(mem, place, f, i)
    requires level < 4 && OnPath(place, t, v, level)
    ensures var mem' := Put(mem, f, i, Loosened(mem[f][i]));
      && Walk(mem', t, v, level) == Walk(mem, t, v, level)
      && LeafUser(mem', t, v, level) == LeafUser(mem, t, v, level)
      && WriteWalk(mem', t, v, level) == WriteWalk(mem, t, v, level)
      && (UserWalk(mem, t, v, level) ==> UserWalk(mem', t, v, level))
    decreases level
  {
    hide AllLinked;
    UserBitOnly(mem[f][i]);
    assert mem[f][i] == EntryOf(mem, f, i);
    hide Writable, Present, Huge, NextTable, User, Index, Target, Loosened, Tree, Put, EntryOf, OnPath;
    EntryPut(mem, f, i, Loosened(mem[f][i]), t, Index(v, level));
    var e := EntryOf(mem, t, Index(v, level));
    if Present(e) && !EndsWalk(e, level) {
      NextOnPath(mem, place, root, t, v, level);
      LoosenKeeps(mem, place, root, f, i, NextTable(e), v, level - 1);
    }
  }

  // ---- Linking a fresh zeroed table -------------------------------------------------------

  ghost function ZeroTable(): (s: seq<bv64>)
    ensures |s| == TABLE_LEN
  {
    seq(TABLE_LEN, _ => 0)
  }

  /** Memory after table g, zeroed, has been linked from entry i of f. */
  ghost function Attach(mem: Memory, f: Frame, i: nat, g: Frame, w: bv64): Memory
    requires f in mem && i < |mem[f]|
  {
    Put(mem, f, i, w)[g := ZeroTable()]
  }

  lemma ZeroAbsent()
    ensures !Present(0)
  {
  }

  lemma AttachTree(mem: Memory, place: Places, root: Frame, f: Frame, i: nat, g: Frame, w: bv64)
    requires Tree(mem, place, root) && f in place && i < TABLE_LEN && |place[f]| < 3
    requires g !in place && g.addr < IDENTITY_LIMIT && AddrOf(g.addr) == g.addr
    requires !Present(mem[f][i]) && Present(w) && Writable(w) && !Huge(w) && NextTable(w) == g
    ensures Tree(Attach(mem, f, i, g, w), place[g := place[f] + [i]], root)
  {
    hide Writable, Present, Huge, AddrOf, NextTable, Attach, AllLinked;
    var mem', place' := Attach(mem, f, i, g, w), place[g := place[f] + [i]];
    AttachLinked(mem, place, root, f, i, g, w);
    AttachPlaced(mem, place, root, f, i, g, w);
    AttachHuge(mem, place, root, f, i, g, w);
    forall h, j | h in place' && 0 <= j < TABLE_LEN && Links(mem', place', h, j)
      ensures Writable(mem'[h][j]) && NextTable(mem'[h][j]) in place' && place'[NextTable(mem'[h][j])] == place'[h] + [j]
    {
      AttachedLink(mem, place, root, f, i, g, w, h, j);
    }
  }

  lemma AttachPlaced(mem: Memory, place: Places, root: Frame, f: Frame, i: nat, g: Frame, w: bv64)
    requires Placed(mem, place, root) && f in place && i < TABLE_LEN && |place[f]| < 3
    requires g !in place && g.addr < IDENTITY_LIMIT && AddrOf(g.addr) == g.addr
    ensures Placed(Attach(mem, f, i, g, w), place[g := place[f] + [i]], root)
  {
    hide AddrOf;
  }

  lemma AttachHuge(mem: Memory, place: Places, root: Frame, f: Frame, i: nat, g: Frame, w: bv64)
    requires Placed(mem, place, root) && HugeInWindow(mem, place, root)
    requires f in place && i < TABLE_LEN && g !in place && !Huge(w)
    requires Placed(Attach(mem, f, i, g, w), place[g := place[f] + [i]], root)
    ensures HugeInWindow(Attach(mem, f, i, g, w), place[g := place[f] + [i]], root)
  {
    ZeroAbsent();
    hide Writable, Present, Huge, AddrOf;
  }

  lemma AttachedLink(mem: Memory, place: Places, root: Frame, f: Frame, i: nat, g: Frame, w: bv64, h: Frame, j: nat)
    requires Tree(mem, place, root) && f in place && i < TABLE_LEN && |place[f]| < 3
    requires g !in place && !Present(mem[f][i]) && NextTable(w) == g && Writable(w)
    requires var place' := place[g := place[f] + [i]];
      h in place' && j < TABLE_LEN && Links(Attach(mem, f, i, g, w), place', h, j)
    ensures var mem', place' := Attach(mem, f, i, g, w), place[g := place[f] + [i]];
      Writable(mem'[h][j]) && NextTable(mem'[h][j]) in place' && place'[NextTable(mem'[h][j])] == place'[h] + [j]
  {
    hide AllLinked;
    ZeroAbsent();
    hide Writable, Present, Huge, NextTable, Writable;
    if h != f || j != i {
      assert h != g;
      assert Links(mem, place, h, j);
    }
  }

  /** It changes no translation and no user access: the new table maps nothing. */
  lemma {:induction false} AttachKeeps(mem: Memory, place: Places, root: Frame, f: Frame, i: nat, g: Frame, w: bv64,
          t: Frame, v: bv64, level: nat)
    requires Tree(mem, place, root) && f in place && i < TABLE_LEN && |place[f]| < 3
    requires g !in place && !Present(mem[f][i]) && Present(w) && !Huge(w) && NextTable(w) == g
    requires level < 4 && OnPath(place, t, v, level)
    ensures var mem' := Attach(mem, f, i, g, w);
      && Walk(mem', t, v, level) == Walk(mem, t, v, level)
      && LeafUser(mem', t, v, level) == LeafUser(mem, t, v, level)
      && WriteWalk(mem', t, v, level) == WriteWalk(mem, t, v, level)
      && (UserWalk(mem, t, v, level) ==> UserWalk(mem', t, v, level))
    decreases level
  {
    hide Writable, Present, Huge, NextTable, User, Index, Target, Tree, Attach, EntryOf, OnPath, AllLinked, Path;
    TreeTable(mem, place, root, f);
    EntryIs(mem, f, i);
    PathLevel(place, t, v, level);
    var mem' := Attach(mem, f, i, g, w);
    EntryAttach(mem, f, i, g, w, t, Index(v, level));
    var e := EntryOf(mem, t, Index(v, level));
    if t == f && Index(v, level) == i {
      EntryAttach(mem, f, i, g, w, g, Index(v, level - 1));
      NothingThere(mem', g, v, level - 1);
      hide Walk, LeafUser, UserWalk, WriteWalk;
      AbsentEntry(mem, t, v, level);
      LinkedEntry(mem', t, v, level);
    } else if Present(e) && !EndsWalk(e, level) {
      NextOnPath(mem, place, root, t, v, level);
      AttachKeeps(mem, place, root, f, i, g, w, NextTable(e), v, level - 1);
    }
  }

  lemma TreeTable(mem: Memory, place: Places, root: Frame, f: Frame)
    requires Tree(mem, place, root)
    ensures mem.Keys == place.Keys && (f in place ==> |mem[f]| == TABLE_LEN && |place[f]| <= 3)
  {
    hide AllLinked;
  }

  lemma PathLevel(place: Places, t: Frame, v: bv64, level: nat)
    requires level < 4 && OnPath(place, t, v, level)
    ensures t in place && |place[t]| == 3 - level
  {
  }

  lemma EntryAttach(mem: Memory, f: Frame, i: nat, g: Frame, w: bv64, t: Frame, j: nat)
    requires f in mem && i < |mem[f]| && g !in mem
    ensures EntryOf(Attach(mem, f, i, g, w), t, j) ==
      if t == g then 0 else if t == f && j == i then w else EntryOf(mem, t, j)
  {
  }

  lemma AbsentEntry(mem: Memory, t: Frame, v: bv64, level: nat)
    requires level < 4 && !Present(EntryOf(mem, t, Index(v, level)))
    ensures Walk(mem, t, v, level).None? && !LeafUser(mem, t, v, level) && !UserWalk(mem, t, v, level)
    ensures !WriteWalk(mem, t, v, level)
  {
    hide Writable, Present, Huge, User, EntryOf, Index;
  }

  lemma NothingThere(mem: Memory, t: Frame, v: bv64, level: nat)
    requires level < 4 && EntryOf(mem, t, Index(v, level)) == 0
    ensures Walk(mem, t, v, level).None? && !LeafUser(mem, t, v, level) && !WriteWalk(mem, t, v, level)
  {
    ZeroAbsent();
    hide Present;
    AbsentEntry(mem, t, v, level);
  }

  lemma LinkedEntry(mem: Memory, t: Frame, v: bv64, level: nat)
    requires 0 < level < 4
    requires var e := EntryOf(mem, t, Index(v, level)); Present(e) && !Huge(e)
    ensures var g := NextTable(EntryOf(mem, t, Index(v, level)));
      Walk(mem, t, v, level) == Walk(mem, g, v, level - 1) && LeafUser(mem, t, v, level) == LeafUser(mem, g, v, level - 1)
    ensures var e := EntryOf(mem, t, Index(v, level));
      WriteWalk(mem, t, v, level) == (Writable(e) && WriteWalk(mem, NextTable(e), v, level - 1))
  {
    hide Writable, Present, Huge, User, EntryOf, Index, NextTable;
  }

  // ---- Writing a leaf ------------------------------------------------------------------------

  lemma LeafTree(mem: Memory, place: Places, root: Frame, f: Frame, i: nat, w: bv64)
    requires Tree(mem, place, root) && f in place && |place[f]| == 3 && i < TABLE_LEN
    ensures Tree(Put(mem, f, i, w), place, root)
  {
    hide Writable, Present, Huge, AddrOf, NextTable, User, Loosened, AllLinked;
    var mem' := Put(mem, f, i, w);
    PutLinked(mem, place, root, f, i, w);
    forall g, j | g in place && 0 <= j < TABLE_LEN && Links(mem', place, g, j)
      ensures Writable(mem'[g][j]) && NextTable(mem'[g][j]) in place && place[NextTable(mem'[g][j])] == place[g] + [j]
    {
      assert Links(mem, place, g, j);
    }
  }

  /** Walks of other pages do not see it. */
  lemma EntryElsewhere(mem: Memory, place: Places, root: Frame, f: Frame, i: nat, w: bv64, t: Frame, v: bv64, level: nat)
    requires Tree(mem, place, root) && f in place && |place[f]| == 3 && i < TABLE_LEN
    requires level < 4 && OnPath(place, t, v, level) && Path(v) != place[f] + [i]
    ensures f in mem && i < |mem[f]|
    ensures EntryOf(Put(mem, f, i, w), t, Index(v, level)) == EntryOf(mem, t, Index(v, level))
  {
    hide AllLinked;
    assert level == 0 ==> Path(v) == Path(v)[..3] + [Path(v)[3]];
    assert t == f ==> level == 0;
    assert Path(v)[3] == Index(v, 0);
    hide Tree, OnPath, EntryOf, Put, Path, Index;
    EntryPut(mem, f, i, w, t, Index(v, level));
  }

  lemma {:induction false} LeafElsewhere(mem: Memory, place: Places, root: Frame, f: Frame, i: nat, w: bv64, t: Frame,
          v: bv64, level: nat)
    requires Tree(mem, place, root) && f in place && |place[f]| == 3 && i < TABLE_LEN
    requires level < 4 && OnPath(place, t, v, level) && Path(v) != place[f] + [i]
    ensures var mem' := Put(mem, f, i, w);
      && Walk(mem', t, v, level) == Walk(mem, t, v, level)
      && LeafUser(mem', t, v, level) == LeafUser(mem, t, v, level)
      && WriteWalk(mem', t, v, level) == WriteWalk(mem, t, v, level)
      && UserWalk(mem', t, v, level) == UserWalk(mem, t, v, level)
    decreases level
  {
    hide Writable, Present, Huge, AddrOf, NextTable, User, Index, Target, Tree, OnPath, EntryOf, Put, Path;
    EntryElsewhere(mem, place, root, f, i, w, t, v, level);
    var e := EntryOf(mem, t, Index(v, level));
    if Present(e) && !EndsWalk(e, level) {
      NextOnPath(mem, place, root, t, v, level);
      LeafElsewhere(mem, place, root, f, i, w, NextTable(e), v, level - 1);
    }
  }

  // ---- Reaching a table ------------------------------------------------------------------------

  lemma {:induction false} ReachOnPath(mem: Memory, place: Places, root: Frame, t: Frame, v: bv64, level: nat,
          target: nat, user: bool)
    requires Tree(mem, place, root) && target <= level < 4 && OnPath(place, t, v, level)
    ensures var r := ReachAt(mem, t, v, level, target, user); r.Some? ==> OnPath(place, r.value, v, target)
    decreases level
  {
    hide Writable, Present, Huge, AddrOf, NextTable, User, Index, AllLinked;
    if level > target && ReachAt(mem, t, v, level, target, user).Some? {
      NextOnPath(mem, place, root, t, v, level);
      ReachOnPath(mem, place, root, NextTable(EntryOf(mem, t, Index(v, level))), v, level - 1, target, user);
    }
  }

  /** One more level down. */
  lemma {:induction false} ReachStep(mem: Memory, t: Frame, v: bv64, level: nat, target: nat, user: bool, f: Frame)
    requires 0 < target <= level < 4 && ReachAt(mem, t, v, level, target, user) == Some(f)
    requires var e := EntryOf(mem, f, Index(v, target));
      Present(e) && !EndsWalk(e, target) && (user ==> User(e))
    ensures ReachAt(mem, t, v, level, target - 1, user) == Some(NextTable(EntryOf(mem, f, Index(v, target))))
    decreases level
  {
    hide Writable, Present, Huge, AddrOf, NextTable, User, Index;
    if level > target {
      ReachStep(mem, NextTable(EntryOf(mem, t, Index(v, level))), v, level - 1, target, user, f);
    }
  }

  /** Only the tables above the target matter. */
  lemma {:induction false} ReachFrame(mem: Memory, mem': Memory, place: Places, root: Frame, t: Frame, v: bv64,
          level: nat, target: nat, user: bool)
    requires Tree(mem, place, root) && target <= level < 4 && OnPath(place, t, v, level)
    requires forall g | g in place && |place[g]| < 3 - target :: g in mem' && mem'[g] == mem[g]
    ensures ReachAt(mem', t, v, level, target, user) == ReachAt(mem, t, v, level, target, user)
    decreases level
  {
    hide Writable, Present, Huge, AddrOf, NextTable, User, Index, AllLinked;
    if level > target {
      var e := EntryOf(mem, t, Index(v, level));
      if Present(e) && !EndsWalk(e, level) {
        NextOnPath(mem, place, root, t, v, level);
        ReachFrame(mem, mem', place, root, NextTable(e), v, level - 1, target, user);
      }
    }
  }

  lemma {:induction false} ReachSamePath(mem: Memory, t: Frame, v: bv64, w: bv64, level: nat, target: nat, user: bool)
    requires target <= level < 4 && Path(v) == Path(w)
    ensures ReachAt(mem, t, v, level, target, user) == ReachAt(mem, t, w, level, target, user)
    decreases level
  {
    hide Writable, Present, Huge, NextTable, User, Index, EntryOf;
    assert Path(v)[3 - level] == Path(w)[3 - level];
    if level > target {
      ReachSamePath(mem, NextTable(EntryOf(mem, t, Index(v, level))), v, w, level - 1, target, user);
    }
  }

  /** The walks continue from the table reached. */
  lemma {:induction false} ReachWalk(mem: Memory, t: Frame, v: bv64, level: nat, target: nat, user: bool)
    requires target <= level < 4 && ReachAt(mem, t, v, level, target, user).Some?
    ensures var f := ReachAt(mem, t, v, level, target, user).value;
      && Walk(mem, t, v, level) == Walk(mem, f, v, target)
      && LeafUser(mem, t, v, level) == LeafUser(mem, f, v, target)
      && (user ==> UserWalk(mem, t, v, level) == UserWalk(mem, f, v, target))
    decreases level
  {
    hide Writable, Present, Huge, AddrOf, NextTable, User, Index, Target;
    if level > target {
      ReachWalk(mem, NextTable(EntryOf(mem, t, Index(v, level))), v, level - 1, target, user);
    }
  }

  /** The leaf is the entry of the last-level table reached. */
  lemma {:induction false} ReachLeaf(mem: Memory, t: Frame, v: bv64, w: bv64, level: nat, user: bool)
    requires level < 4 && ReachAt(mem, t, v, level, 0, user).Some? && Path(v) == Path(w)
    ensures Leaf(mem, t, w, level) == EntryOf(mem, ReachAt(mem, t, v, level, 0, user).value, Index(v, 0))
    decreases level
  {
    hide Writable, Present, Huge, NextTable, User, Index, EntryOf;
    assert Path(v)[3 - level] == Path(w)[3 - level];
    if level > 0 {
      ReachLeaf(mem, NextTable(EntryOf(mem, t, Index(v, level))), v, w, level - 1, user);
    }
  }

  /** Every link on the way is writable, so the leaf decides. */
  lemma {:induction false} ReachWrites(mem: Memory, place: Places, root: Frame, t: Frame, v: bv64, level: nat, user: bool)
    requires Tree(mem, place, root) && level < 4 && OnPath(place, t, v, level)
    requires ReachAt(mem, t, v, level, 0, user).Some?
    ensures WriteWalk(mem, t, v, level) == WriteWalk(mem, ReachAt(mem, t, v, level, 0, user).value, v, 0)
    decreases level
  {
    hide Writable, Present, Huge, AddrOf, NextTable, User, Index, Tree, OnPath, EntryOf;
    if level > 0 {
      NextOnPath(mem, place, root, t, v, level);
      LinkWritable(mem, place, root, t, v, level);
      ReachWrites(mem, place, root, NextTable(EntryOf(mem, t, Index(v, level))), v, level - 1, user);
    }
  }

  lemma LinkWritable(mem: Memory, place: Places, root: Frame, t: Frame, v: bv64, level: nat)
    requires Tree(mem, place, root) && 0 < level < 4 && OnPath(place, t, v, level)
    requires var e := EntryOf(mem, t, Index(v, level)); Present(e) && !EndsWalk(e, level)
    ensures Writable(EntryOf(mem, t, Index(v, level)))
  {
    hide Writable, Present, Huge, AddrOf, NextTable, Index, AllLinked;
    assert Links(mem, place, t, Index(v, level));
  }

  lemma {:induction false} UserWalkLeaf(mem: Memory, t: Frame, v: bv64, level: nat)
    requires level < 4
    ensures UserWalk(mem, t, v, level) ==> LeafUser(mem, t, v, level)
    decreases level
  {
    hide Writable, Present, Huge, AddrOf, NextTable, User, Index;
    if UserWalk(mem, t, v, level) && !EndsWalk(EntryOf(mem, t, Index(v, level)), level) {
      UserWalkLeaf(mem, NextTable(EntryOf(mem, t, Index(v, level))), v, level - 1);
    }
  }

  // ---- Counting the tables to create ---------------------------------------------------------------

  /** OR-ing USER into a link creates and removes no table. */
  lemma {:induction false} MissingLoosened(mem: Memory, f: Frame, i: nat, t: Frame, v: bv64, level: nat)
    requires f in mem && i < |mem[f]| && level < 4
    ensures Missing(Put(mem, f, i, Loosened(mem[f][i])), t, v, level) == Missing(mem, t, v, level)
    decreases level
  {
    UserBitOnly(mem[f][i]);
    hide Writable, Present, Huge, NextTable, User, Index, Loosened, Put, EntryOf;
    MissingUnfolds(mem, t, v, level);
    MissingUnfolds(Put(mem, f, i, Loosened(mem[f][i])), t, v, level);
    assert mem[f][i] == EntryOf(mem, f, i) by { EntryIs(mem, f, i); }
    EntryPut(mem, f, i, Loosened(mem[f][i]), t, Index(v, level));
    if level > 0 {
      hide Missing;
      MissingLoosened(mem, f, i, NextTable(EntryOf(mem, t, Index(v, level))), v, level - 1);
    }
  }

  lemma EntryIs(mem: Memory, f: Frame, i: nat)
    requires f in mem && i < |mem[f]|
    ensures EntryOf(mem, f, i) == mem[f][i]
  {
  }

  lemma MissingUnfolds(mem: Memory, t: Frame, v: bv64, level: nat)
    requires level < 4
    ensures level == 0 ==> Missing(mem, t, v, level) == 0
    ensures level > 0 ==> var e := EntryOf(mem, t, Index(v, level));
      Missing(mem, t, v, level) ==
        if !Present(e) then level else if EndsWalk(e, level) then 0 else Missing(mem, NextTable(e), v, level - 1)
  {
    hide Writable, Present, Huge, NextTable, Index, EntryOf;
  }

  /** Below a table just created, everything is still to be created. */
  lemma MissingAttached(mem: Memory, f: Frame, i: nat, g: Frame, w: bv64, v: bv64, level: nat)
    requires f in mem && i < |mem[f]| && g !in mem && level < 4
    ensures Missing(Attach(mem, f, i, g, w), g, v, level) == level
  {
    ZeroAbsent();
    hide Writable, Present, Huge, NextTable, Index, EntryOf, Attach;
    EntryAttach(mem, f, i, g, w, g, Index(v, level));
    MissingUnfolds(Attach(mem, f, i, g, w), g, v, level);
  }

  lemma {:induction false} MissingSamePath(mem: Memory, t: Frame, v: bv64, w: bv64, level: nat)
    requires level < 4 && Path(v) == Path(w)
    ensures Missing(mem, t, v, level) == Missing(mem, t, w, level)
    decreases level
  {
    hide Writable, Present, Huge, AddrOf, NextTable, Index, Missing, EntryOf;
    assert Path(v)[3 - level] == Path(w)[3 - level];
    MissingUnfolds(mem, t, v, level);
    MissingUnfolds(mem, t, w, level);
    if level > 0 {
      MissingSamePath(mem, NextTable(EntryOf(mem, t, Index(v, level))), v, w, level - 1);
    }
  }

  /** The places at which there is a table. */
  ghost function Tables(place: Places): set<seq<nat>> { set f | f in place :: place[f] }

  /** The first n places on a path below the root. */
  ghost function Upto(path: seq<nat>, n: nat): set<seq<nat>>
    requires n <= |path|
  {
    set j: nat | 0 < j <= n :: path[..j]
  }

  lemma NothingUpto(path: seq<nat>)
    ensures Upto(path, 0) == {}
  {
  }

  lemma UptoNext(path: seq<nat>, n: nat)
    requires n < |path|
    ensures Upto(path, n + 1) == Upto(path, n) + {path[..n + 1]}
  {
    var longer, shorter := Upto(path, n + 1), Upto(path, n);
    forall p | p in longer ensures p in shorter + {path[..n + 1]} {
      var j: nat :| 0 < j <= n + 1 && path[..j] == p;
      assert j == n + 1 || path[..j] in shorter;
    }
  }

  lemma TablesPlus(place: Places, g: Frame, p: seq<nat>)
    requires g !in place
    ensures Tables(place[g := p]) == Tables(place) + {p}
  {
    var place' := place[g := p];
    assert place'[g] in Tables(place');
    forall q | q in Tables(place) ensures q in Tables(place') {
      var f :| f in place && place[f] == q;
      assert place'[f] == q;
    }
  }

  /** How many of the three places on a path have no table, from this level down. */
  ghost function Need(tables: set<seq<nat>>, path: seq<nat>, level: nat): (n: nat)
    requires |path| == 4 && level < 4
    ensures n <= level
  {
    if level == 0 then 0
    else if path[..4 - level] !in tables then level
    else Need(tables, path, level - 1)
  }

  /** Below a table on the path there is a table exactly if the entry links one. */
  lemma LinkedExactly(mem: Memory, place: Places, root: Frame, t: Frame, v: bv64, level: nat)
    requires Tree(mem, place, root) && 0 < level < 4 && OnPath(place, t, v, level)
    ensures Links(mem, place, t, Index(v, level)) <==> Path(v)[..4 - level] in Tables(place)
  {
    hide Writable, Present, Huge, NextTable, Index, EntryOf, AllLinked, Path;
    PathLevel(place, t, v, level);
    PathSplits(v, level);
    if Links(mem, place, t, Index(v, level)) {
      NextOnPath(mem, place, root, t, v, level);
      assert place[NextTable(EntryOf(mem, t, Index(v, level)))] in Tables(place);
    }
    if Path(v)[..4 - level] in Tables(place) {
      var g :| g in place && place[g] == Path(v)[..4 - level];
      var f, i := LinkedPlace(mem, place, root, g);
      assert place[f] == place[g][..3 - level] && i == place[g][3 - level];
      PlacesDiffer(mem, place, root, f, t);
    }
  }

  lemma PathSplits(v: bv64, level: nat)
    requires 0 < level < 4
    ensures Path(v)[..4 - level] == Path(v)[..3 - level] + [Index(v, level)]
    ensures Path(v)[..4 - level][..3 - level] == Path(v)[..3 - level] && Path(v)[3 - level] == Index(v, level)
  {
  }

  /** Outside the window, the tables a descent has to create are the places missing. */
  lemma {:induction false} MissingIsNeed(mem: Memory, place: Places, root: Frame, t: Frame, v: bv64, level: nat)
    requires Tree(mem, place, root) && level < 4 && OnPath(place, t, v, level) && !InIdentity(v)
    ensures Missing(mem, t, v, level) == Need(Tables(place), Path(v), level)
    decreases level
  {
    hide Writable, Present, Huge, NextTable, Index, EntryOf, Tree, OnPath, Path, Tables, InIdentity;
    MissingUnfolds(mem, t, v, level);
    if level > 0 {
      PathLevel(place, t, v, level);
      LinkedExactly(mem, place, root, t, v, level);
      var e := EntryOf(mem, t, Index(v, level));
      if Present(e) && Huge(e) { HugeMeansWindow(mem, place, root, t, v, level); }
      if Links(mem, place, t, Index(v, level)) {
        NextOnPath(mem, place, root, t, v, level);
        MissingIsNeed(mem, place, root, NextTable(e), v, level - 1);
      }
    }
  }

  // ---- The identity window stays ------------------------------------------------------------------

  lemma LoosenWindow(mem: Memory, place: Places, root: Frame, pdpt: Frame, pd: Frame, f: Frame, i: nat)
    requires Tree(mem, place, root) && Window(mem, place, root, pdpt, pd)
    requires f in place && i < TABLE_LEN && Links(mem, place, f, i)
    requires Tree(Put(mem, f, i, Loosened(mem[f][i])), place, root)
    ensures Window(Put(mem, f, i, Loosened(mem[f][i])), place, root, pdpt, pd)
  {
    hide AllLinked;
    UserBitOnly(mem[f][i]);
    IdentityEntryEnds(i);
    hide Writable, Present, Huge, NextTable, Loosened, IdentityEntry, User, AddrOf;
    assert f != pd;
  }

  lemma AttachWindow(mem: Memory, place: Places, root: Frame, pdpt: Frame, pd: Frame, f: Frame, i: nat, g: Frame,
          w: bv64)
    requires Tree(mem, place, root) && Window(mem, place, root, pdpt, pd)
    requires f in place && i < TABLE_LEN && |place[f]| < 3 && g !in place && !Present(mem[f][i])
    requires Tree(Attach(mem, f, i, g, w), place[g := place[f] + [i]], root)
    ensures Window(Attach(mem, f, i, g, w), place[g := place[f] + [i]], root, pdpt, pd)
  {
    hide AllLinked;
    IdentityEntryEnds(i);
    hide Writable, Present, Huge, NextTable, IdentityEntry, User, AddrOf;
    assert f != pd;
  }

  lemma LeafWindow(mem: Memory, place: Places, root: Frame, pdpt: Frame, pd: Frame, f: Frame, i: nat, w: bv64)
    requires Tree(mem, place, root) && Window(mem, place, root, pdpt, pd)
    requires f in place && |place[f]| == 3 && i < TABLE_LEN
    requires Tree(Put(mem, f, i, w), place, root)
    ensures Window(Put(mem, f, i, w), place, root, pdpt, pd)
  {
    hide Writable, Present, Huge, NextTable, IdentityEntry, User, AddrOf, AllLinked;
  }

  /** Only the window's own pages meet a large page. */
  lemma HugeMeansWindow(mem: Memory, place: Places, root: Frame, t: Frame, virt: bv64, level: nat)
    requires Tree(mem, place, root) && 0 < level < 4 && OnPath(place, t, virt, level)
    requires var e := EntryOf(mem, t, Index(virt, level)); Present(e) && Huge(e)
    ensures InIdentity(virt) && level == 1
  {
    hide AllLinked;
    IdentityIndices(virt);
    hide Writable, Present, Huge, Index, InIdentity, AddrOf, NextTable;
    assert place[t] == [0, 0];
    assert Path(virt)[..2][0] == 0 && Path(virt)[..2][1] == 0;
  }

  /** On the way down, the window's pages go through its own three tables. */
  ghost predicate WindowTable(root: Frame, pdpt: Frame, pd: Frame, t: Frame, level: nat) {
    (level == 3 && t == root) || (level == 2 && t == pdpt) || (level == 1 && t == pd)
  }

  lemma WindowStep(mem: Memory, place: Places, root: Frame, pdpt: Frame, pd: Frame, t: Frame, virt: bv64, level: nat)
    requires Tree(mem, place, root) && Window(mem, place, root, pdpt, pd)
    requires InIdentity(virt) && 0 < level < 4 && WindowTable(root, pdpt, pd, t, level)
    ensures var e := EntryOf(mem, t, Index(virt, level));
      Present(e) && (Huge(e) <==> level == 1) && (level > 1 ==> WindowTable(root, pdpt, pd, NextTable(e), level - 1))
  {
    hide Writable, Present, Huge, Index, InIdentity, NextTable, IdentityEntry, Tree, Window, EntryOf;
    WindowEntries(mem, place, root, pdpt, pd);
    if level > 1 {
      IdentityIndices(virt);
    } else {
      IdentityEntryEnds(Index(virt, 1));
    }
  }

  lemma WindowEntries(mem: Memory, place: Places, root: Frame, pdpt: Frame, pd: Frame)
    requires Tree(mem, place, root) && Window(mem, place, root, pdpt, pd)
    ensures var e := EntryOf(mem, root, 0); Present(e) && !Huge(e) && NextTable(e) == pdpt
    ensures var e := EntryOf(mem, pdpt, 0); Present(e) && !Huge(e) && NextTable(e) == pd
    ensures forall i | 0 <= i < TABLE_LEN :: EntryOf(mem, pd, i) == IdentityEntry(i)
  {
    hide Writable, Present, Huge, NextTable, IdentityEntry, Descending, AllLinked;
    assert |mem[root]| == TABLE_LEN && |mem[pdpt]| == TABLE_LEN && |mem[pd]| == TABLE_LEN;
  }

  // ---- One step of a descent -------------------------------------------------------------------------

  /** The descent for `virt` has reached `t` at `level`, through user links if `user`. */
  ghost predicate Reached(mem: Memory, place: Places, root: Frame, t: Frame, virt: bv64, level: nat, user: bool)
    requires level < 4
  {
    OnPath(place, t, virt, level) && ReachAt(mem, root, virt, 3, level, user) == Some(t)
  }

  lemma RootReached(mem: Memory, place: Places, root: Frame, virt: bv64, user: bool)
    requires Tree(mem, place, root)
    ensures Reached(mem, place, root, root, virt, 3, user)
  {
    hide AllLinked;
    assert Path(virt)[..0] == [];
  }

  lemma FollowLink(mem: Memory, place: Places, root: Frame, t: Frame, virt: bv64, level: nat, user: bool)
    requires Tree(mem, place, root) && 0 < level < 4 && Reached(mem, place, root, t, virt, level, user)
    requires var e := EntryOf(mem, t, Index(virt, level));
      Present(e) && !EndsWalk(e, level) && (user ==> User(e))
    ensures Reached(mem, place, root, NextTable(EntryOf(mem, t, Index(virt, level))), virt, level - 1, user)
  {
    hide Tree, OnPath, ReachAt, Present, Huge, User, NextTable, Index, EntryOf;
    NextOnPath(mem, place, root, t, virt, level);
    ReachStep(mem, root, virt, 3, level, user, t);
  }

  lemma FollowLoosened(mem: Memory, place: Places, root: Frame, t: Frame, virt: bv64, level: nat)
    requires Tree(mem, place, root) && 0 < level < 4 && Reached(mem, place, root, t, virt, level, true)
    requires Links(mem, place, t, Index(virt, level))
    ensures var mem' := Put(mem, t, Index(virt, level), Loosened(mem[t][Index(virt, level)]));
      Reached(mem', place, root, NextTable(mem[t][Index(virt, level)]), virt, level - 1, true)
  {
    hide AllLinked;
    var i := Index(virt, level);
    var mem' := Put(mem, t, i, Loosened(mem[t][i]));
    UserBitOnly(mem[t][i]);
    LoosenTree(mem, place, root, t, i);
    RootReached(mem, place, root, virt, true);
    assert EntryOf(mem', t, i) == Loosened(mem[t][i]);
    assert forall g | g in place && |place[g]| < 3 - level :: g in mem' && mem'[g] == mem[g];
    hide Tree, ReachAt, Present, Huge, User, NextTable, Index, Loosened, Put, EntryOf;
    ReachFrame(mem, mem', place, root, root, virt, 3, level, true);
    FollowLink(mem', place, root, t, virt, level, true);
  }

  lemma FollowAttached(mem: Memory, place: Places, root: Frame, t: Frame, virt: bv64, level: nat, user: bool, g: Frame)
    requires Tree(mem, place, root) && 0 < level < 4 && Reached(mem, place, root, t, virt, level, user)
    requires g !in place && AddrOf(g.addr) == g.addr
    requires var i := Index(virt, level); Tree(Attach(mem, t, i, g, LinkTo(g, user)), place[g := place[t] + [i]], root)
    ensures var i := Index(virt, level);
      Reached(Attach(mem, t, i, g, LinkTo(g, user)), place[g := place[t] + [i]], root, g, virt, level - 1, user)
  {
    hide AllLinked;
    var i := Index(virt, level);
    var mem', place' := Attach(mem, t, i, g, LinkTo(g, user)), place[g := place[t] + [i]];
    LinkWord(g, user);
    RootReached(mem, place, root, virt, user);
    assert EntryOf(mem', t, i) == LinkTo(g, user);
    assert forall h | h in place && |place[h]| < 3 - level :: h in mem' && mem'[h] == mem[h];
    assert OnPath(place', t, virt, level);
    hide Tree, ReachAt, Present, Huge, User, NextTable, Index, LinkTo, Attach, EntryOf, OnPath;
    ReachFrame(mem, mem', place, root, root, virt, 3, level, user);
    FollowLink(mem', place', root, t, virt, level, user);
  }

  /** What the walks find is decided at the table reached. */
  lemma ReachedWalk(mem: Memory, place: Places, root: Frame, t: Frame, virt: bv64, level: nat)
    requires level < 4 && Reached(mem, place, root, t, virt, level, false)
    ensures Walk(mem, root, virt, 3) == Walk(mem, t, virt, level)
  {
    hide Walk, LeafUser, UserWalk, ReachAt, OnPath;
    ReachWalk(mem, root, virt, 3, level, false);
  }
}
