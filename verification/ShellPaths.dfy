/** Path handling of src/shell.rs: `canonicalize` and the working directory that `cd`
    keeps. Paths are byte strings. */
module ShellPaths {
  import opened Common
  import opened LittleEndian
  import opened Paths
  import Fs
  import FsValidation

  const HERE: Name := [DOT]
  const PARENT: Name := [DOT, DOT]
  const ROOT: seq<byte> := [SLASH]

  /** A component that stands for itself. */
  predicate Plain(name: Name) { name != [] && name != HERE && name != PARENT && SLASH !in name }

  predicate AllPlain(names: seq<Name>) { forall i | 0 <= i < |names| :: Plain(names[i]) }

  /** A leading slash, no empty, "." or ".." component, no trailing slash but the root's. */
  predicate Canonical(path: seq<byte>) {
    path == ROOT || (path != [] && path[0] == SLASH && AllPlain(Split(path[1..])))
  }

  predicate Absolute(path: seq<byte>) { path != [] && path[0] == SLASH }

  // ---- canonicalize --------------------------------------------------------------------

  /** One component against the stack; ".." at the root stays there. */
  function Walk(stack: seq<Name>, part: Name): seq<Name> {
    if part == [] || part == HERE then stack
    else if part == PARENT then if stack == [] then [] else stack[..|stack| - 1]
    else stack + [part]
  }

  function WalkAll(stack: seq<Name>, parts: seq<Name>): seq<Name>
    decreases |parts|
  {
    if parts == [] then stack else WalkAll(Walk(stack, parts[0]), parts[1..])
  }

  function Join(names: seq<Name>): seq<byte> {
    if names == [] then [] else [SLASH] + names[0] + Join(names[1..])
  }

  function Render(stack: seq<Name>): seq<byte> { if stack == [] then ROOT else Join(stack) }

  /** An absolute argument ignores the working directory. */
  function Base(cwd: seq<byte>, arg: seq<byte>): seq<byte> { if Absolute(arg) then [] else cwd }

  /** The components that a path argument leads to. */
  function Target(cwd: seq<byte>, arg: seq<byte>): seq<Name> {
    WalkAll([], Split(Base(cwd, arg)) + Split(arg))
  }

  function Canonicalized(cwd: seq<byte>, arg: seq<byte>): seq<byte> { Render(Target(cwd, arg)) }

  method Canonicalize(cwd: seq<byte>, arg: seq<byte>) returns (out: seq<byte>)
    ensures out == Canonicalized(cwd, arg) && Canonical(out)
  {
    hide Split, Canonical, Render;
    var parts := Split(Base(cwd, arg)) + Split(arg);
    var stack: seq<Name> := [];
    for i := 0 to |parts|
      invariant WalkAll([], parts) == WalkAll(stack, parts[i..])
    {
      assert parts[i..][1..] == parts[i + 1..];
      var part := parts[i];
      if part == [] || part == HERE {
      } else if part == PARENT {
        if stack != [] { stack := stack[..|stack| - 1]; }
      } else {
        stack := stack + [part];
      }
    }
    assert parts[|parts|..] == [];
    CanonicalizedIsCanonical(cwd, arg);
    out := RenderStack(stack);
  }

  lemma JoinNone()
    ensures Join([]) == []
  {
  }

  lemma JoinStep(out: seq<byte>, stack: seq<Name>, i: nat)
    requires i < |stack|
    ensures out + Join(stack[i..]) == out + [SLASH] + stack[i] + Join(stack[i + 1..])
  {
    assert stack[i..][1..] == stack[i + 1..];
    assert out + ([SLASH] + stack[i] + Join(stack[i + 1..])) == out + [SLASH] + stack[i] + Join(stack[i + 1..]);
  }

  method RenderStack(stack: seq<Name>) returns (out: seq<byte>)
    ensures out == Render(stack)
  {
    hide Join;
    if stack == [] { return ROOT; }
    out := [];
    assert stack[0..] == stack;
    for i := 0 to |stack|
      invariant Join(stack) == out + Join(stack[i..])
    {
      JoinStep(out, stack, i);
      out := out + [SLASH] + stack[i];
    }
    assert stack[|stack|..] == [];
    JoinNone();
  }

  lemma {:induction false} WalkAllPlain(stack: seq<Name>, parts: seq<Name>)
    requires AllPlain(stack) && forall i | 0 <= i < |parts| :: SLASH !in parts[i]
    ensures AllPlain(WalkAll(stack, parts))
    decreases |parts|
  {
    if parts != [] {
      WalkAllPlain(Walk(stack, parts[0]), parts[1..]);
    }
  }

  lemma SplitsPlain(s: seq<byte>)
    ensures forall i | 0 <= i < |Split(s)| :: SLASH !in Split(s)[i]
  {
    forall i | 0 <= i < |Split(s)| ensures SLASH !in Split(s)[i] {
      SplitPieces(s, i);
    }
  }

  lemma TargetPlain(cwd: seq<byte>, arg: seq<byte>)
    ensures AllPlain(Target(cwd, arg))
  {
    SplitsPlain(Base(cwd, arg));
    SplitsPlain(arg);
    WalkAllPlain([], Split(Base(cwd, arg)) + Split(arg));
  }

  lemma SplitAbsolute(path: seq<byte>)
    requires Absolute(path)
    ensures Split(path) == [[]] + Split(path[1..]) && Split(path)[1..] == Split(path[1..])
  {
  }

  /** Splitting what was joined: one leading empty piece, then the names. */
  lemma {:induction false} SplitJoined(names: seq<Name>)
    requires AllPlain(names)
    ensures Split(Join(names)) == [[]] + names
  {
    hide Split;
    if names == [] {
      SplitPlain([]);
    } else {
      var rest := Join(names[1..]);
      SplitAbsolute(Join(names));
      SplitPlain(names[0]);
      if |names| == 1 {
        assert Join(names)[1..] == names[0] && names == [names[0]];
      } else {
        SplitJoined(names[1..]);
        SplitAbsolute(rest);
        assert Split(rest[1..]) == names[1..];
        assert rest == [SLASH] + rest[1..];
        SplitJoin(names[0], rest[1..]);
        assert Join(names)[1..] == names[0] + [SLASH] + rest[1..];
        assert names == [names[0]] + names[1..];
      }
    }
  }

  lemma {:induction false} WalkPlainOnly(stack: seq<Name>, names: seq<Name>)
    requires AllPlain(names)
    ensures WalkAll(stack, names) == stack + names
    decreases |names|
  {
    if names != [] {
      WalkPlainOnly(stack + [names[0]], names[1..]);
      assert stack + names == stack + [names[0]] + names[1..];
    }
  }

  lemma {:induction false} WalkSplits(stack: seq<Name>, a: seq<Name>, b: seq<Name>)
    ensures WalkAll(stack, a + b) == WalkAll(WalkAll(stack, a), b)
    decreases |a|
  {
    if a == [] {
      assert a + b == b;
    } else {
      assert (a + b)[1..] == a[1..] + b;
      WalkSplits(Walk(stack, a[0]), a[1..], b);
    }
  }

  /** Walking a rendered stack from the root rebuilds it. */
  lemma WalkRendered(stack: seq<Name>)
    requires AllPlain(stack)
    ensures WalkAll([], Split(Render(stack))) == stack
  {
    SplitJoined(stack);
    if stack == [] {

      SplitAbsolute(ROOT);
      WalkSplits([], [[]], [[]]);
      assert Split([]) == [[]];
    } else {
      assert ([[]] + stack)[1..] == stack;
      WalkPlainOnly([], stack);
    }
  }

  lemma RenderCanonical(stack: seq<Name>)
    requires AllPlain(stack)
    ensures Canonical(Render(stack))
  {
    if stack != [] {
      var path := Join(stack);
      SplitJoined(stack);
      SplitAbsolute(path);
      assert Split(path[1..]) == stack;
    }
  }

  /** The result is canonical for any arguments at all. */
  lemma CanonicalizedIsCanonical(cwd: seq<byte>, arg: seq<byte>)
    ensures Canonical(Canonicalized(cwd, arg))
  {
    TargetPlain(cwd, arg);
    RenderCanonical(Target(cwd, arg));
  }

  /** A canonical path is rendered from its own components. */
  lemma CanonicalRenders(path: seq<byte>)
    requires Canonical(path)
    ensures exists stack :: AllPlain(stack) && path == Render(stack)
  {
    if path == ROOT {
      assert AllPlain([]) && Render([]) == ROOT;
    } else {
      var stack := Split(path[1..]);
      JoinSplit(path[1..]);
      assert path == [SLASH] + path[1..];
      assert AllPlain(stack) && path == Render(stack);
    }
  }

  lemma {:induction false} JoinSplit(s: seq<byte>)
    ensures Join(Split(s)) == [SLASH] + s
  {
    if s != [] {
      var rest := Split(s[1..]);
      JoinSplit(s[1..]);
      assert Join(rest) == [SLASH] + rest[0] + Join(rest[1..]);
      assert s[1..] == rest[0] + Join(rest[1..]) by { assert Join(rest)[1..] == rest[0] + Join(rest[1..]); }
      assert s == [s[0]] + s[1..];
      if s[0] == SLASH {
        assert Split(s)[1..] == rest;
      } else {
        assert Split(s)[1..] == rest[1..];
      }
    }
  }

  /** Canonical paths are fixed points: as an argument whatever the working directory,
      and as a working directory under an empty argument. */
  lemma CanonicalIsFixed(path: seq<byte>, cwd: seq<byte>)
    requires Canonical(path)
    ensures Canonicalized(cwd, path) == path && Canonicalized(path, []) == path
  {
    CanonicalRenders(path);
    var stack :| AllPlain(stack) && path == Render(stack);
    WalkRendered(stack);
    WalkSplits([], [[]], Split(path));
    WalkSplits([], Split(path), [[]]);
    assert Absolute(path);
    assert Split([]) == [[]];
    assert WalkAll([], [[]]) == [] && WalkAll(stack, [[]]) == stack;
  }

  /** Two steps, or one step along the joined argument. */
  lemma CanonicalizedComposes(cwd: seq<byte>, a: seq<byte>, b: seq<byte>)
    requires a != [] && !Absolute(b)
    ensures Canonicalized(Canonicalized(cwd, a), b) == Canonicalized(cwd, a + [SLASH] + b)
  {
    hide Split, WalkAll, Render;
    var stack, base := Target(cwd, a), Split(Base(cwd, a));
    TargetPlain(cwd, a);
    WalkRendered(stack);
    WalkSplits([], Split(Render(stack)), Split(b));
    SplitJoin(a, b);
    WalkSplits([], base + Split(a), Split(b));
    assert base + (Split(a) + Split(b)) == base + Split(a) + Split(b);
    assert Absolute(a + [SLASH] + b) == Absolute(a);
  }

  /** What the components do: a name goes one down, ".." one back up and nowhere from the
      root, "." and nothing stay, and an absolute argument starts over. */
  lemma StepByStep(stack: seq<Name>, name: Name, cwd: seq<byte>)
    requires AllPlain(stack) && Plain(name)
    ensures Canonicalized(Render(stack), name) == Render(stack + [name])
    ensures Canonicalized(Render(stack + [name]), [46, 46]) == Render(stack)
    ensures Canonicalized([47], [46, 46]) == [47]
    ensures Canonicalized(Render(stack), [46]) == Render(stack) == Canonicalized(Render(stack), [])
    ensures Canonicalized(cwd, [47] + name) == [47] + name
  {
    hide Split, WalkAll, Render;
    OneName(stack, name);
    OneName(stack + [name], PARENT);
    OneName([], PARENT);
    OneName(stack, HERE);
    NoName(stack);
    FromRoot(cwd, name);
    RenderedIs(stack, name);
    assert (stack + [name])[..|stack|] == stack;
  }

  lemma OneName(stack: seq<Name>, part: Name)
    requires AllPlain(stack) && part != [] && SLASH !in part
    ensures Canonicalized(Render(stack), part) == Render(Walk(stack, part))
  {
    hide Split, Render, Walk;
    SplitPlain(part);
    WalkRendered(stack);
    WalkSplits([], Split(Render(stack)), [part]);
    assert [part][1..] == [] && WalkAll(Walk(stack, part), []) == Walk(stack, part);
  }

  lemma NoName(stack: seq<Name>)
    requires AllPlain(stack)
    ensures Canonicalized(Render(stack), []) == Render(stack)
  {
    hide Render;
    WalkRendered(stack);
    WalkSplits([], Split(Render(stack)), Split([]));
    assert Split([]) == [[]] && Split([])[1..] == [];
  }

  lemma FromRoot(cwd: seq<byte>, name: Name)
    requires Plain(name)
    ensures Canonicalized(cwd, [47] + name) == [47] + name
  {
    var path := [47] + name;
    assert path[1..] == name;
    SplitPlain(name);
    CanonicalIsFixed(path, cwd);
  }

  /** A canonical path is its names, each behind a slash; without names, a slash. */
  lemma RenderedIs(stack: seq<Name>, name: Name)
    ensures Render([]) == [47]
    ensures Render(stack + [name]) == (if stack == [] then [] else Render(stack)) + [47] + name
  {
    JoinSnoc(stack, name);
  }

  lemma {:induction false} JoinSnoc(stack: seq<Name>, name: Name)
    ensures Join(stack + [name]) == Join(stack) + [47] + name
  {
    if stack == [] {
      assert [name][1..] == [];
      assert Join([name]) == [SLASH] + name;
    } else {
      JoinSnoc(stack[1..], name);
      assert (stack + [name])[1..] == stack[1..] + [name];
    }
  }

  // ---- cd --------------------------------------------------------------------------------

  /** The path names a directory of the image, under this reader. */
  ghost predicate NamesDir(image: Fs.Image, reader: Fs.Reader, path: seq<byte>) {
    var fs := Fs.Mount(image, reader);
    fs.Ok? && Fs.Mounted(fs.value) && Fs.Resolve(fs.value, path).Ok? && Fs.Resolve(fs.value, path).value.Dir?
  }

  ghost predicate NamesFile(image: Fs.Image, reader: Fs.Reader, path: seq<byte>) {
    var fs := Fs.Mount(image, reader);
    fs.Ok? && Fs.Mounted(fs.value) && Fs.Resolve(fs.value, path).Ok? && Fs.Resolve(fs.value, path).value.File?
  }

  /** Where `cd` leads. */
  ghost function Chdir(cwd: seq<byte>, arg: seq<byte>, image: Fs.Image, reader: Fs.Reader): seq<byte> {
    if arg == [] then ROOT
    else if NamesDir(image, reader, Canonicalized(cwd, arg)) then Canonicalized(cwd, arg)
    else cwd
  }

  datatype CdOutcome = Moved | CannotMount(error: Fs.FsError) | NotADirectory | NoSuchDirectory

  class Shell {
    var cwd: seq<byte>

    constructor ()
      ensures cwd == ROOT
    {
      cwd := ROOT;
    }

    /** `cmd_cd`; server mode mounts with the length-trusting reader. */
    method Cd(arg: seq<byte>, image: Fs.Image, serverMode: bool) returns (outcome: CdOutcome)
      modifies this
      ensures cwd == Chdir(old(cwd), arg, image, if serverMode then Fs.Tier2 else Fs.Strict)
      ensures outcome == Moved <==>
        arg == [] || NamesDir(image, if serverMode then Fs.Tier2 else Fs.Strict, Canonicalized(old(cwd), arg))
      ensures Canonical(old(cwd)) ==> Canonical(cwd)
      ensures arg == [] ==> cwd == [47]
      ensures outcome == Moved && arg != [] ==> cwd == Canonicalized(old(cwd), arg)
      ensures outcome != Moved ==> cwd == old(cwd)
      ensures var fs := Fs.Mount(image, if serverMode then Fs.Tier2 else Fs.Strict);
        arg != [] && fs.Err? ==> outcome == CannotMount(fs.error)
      ensures outcome == NotADirectory ==>
        NamesFile(image, if serverMode then Fs.Tier2 else Fs.Strict, Canonicalized(old(cwd), arg))
    {
      if arg == [] {
        cwd := ROOT;
        return Moved;
      }
      var target := Canonicalize(cwd, arg);
      var fs, _ := Fs.MountInner(image, !serverMode, serverMode);
      if fs.Err? { return CannotMount(fs.error); }
      FsValidation.MountedMeansTotal(image, if serverMode then Fs.Tier2 else Fs.Strict, target);
      var node := Fs.ResolvePath(fs.value, target);
      if node.Err? { return NoSuchDirectory; }
      if node.value.File? { return NotADirectory; }
      cwd := target;
      outcome := Moved;
    }
  }

  datatype Command = Command(arg: seq<byte>, image: Fs.Image, reader: Fs.Reader)

  ghost function ChdirAll(cwd: seq<byte>, commands: seq<Command>): seq<byte>
    decreases |commands|
  {
    if commands == [] then cwd
    else ChdirAll(Chdir(cwd, commands[0].arg, commands[0].image, commands[0].reader), commands[1..])
  }

  /** Through any run of `cd`, whatever the arguments and the images, the working
      directory stays canonical; with one image that mounts, it always names one of its
      directories. */
  lemma {:induction false} CwdStaysCanonical(cwd: seq<byte>, commands: seq<Command>)
    requires Canonical(cwd)
    ensures Canonical(ChdirAll(cwd, commands))
    ensures forall image, reader ::
      && (forall i | 0 <= i < |commands| :: commands[i].image == image && commands[i].reader == reader)
      && Fs.Mount(image, reader).Ok? && NamesDir(image, reader, cwd)
      ==> NamesDir(image, reader, ChdirAll(cwd, commands))
    decreases |commands|
  {
    if commands != [] {
      var c := commands[0];
      CanonicalizedIsCanonical(cwd, c.arg);
      if Fs.Mount(c.image, c.reader).Ok? { RootNamesDir(c.image, c.reader); }
      CwdStaysCanonical(Chdir(cwd, c.arg, c.image, c.reader), commands[1..]);
    }
  }

  lemma RootNamesDir(image: Fs.Image, reader: Fs.Reader)
    requires Fs.Mount(image, reader).Ok?
    ensures NamesDir(image, reader, ROOT)
  {
    FsValidation.MountedMeansTotal(image, reader, ROOT);
    var fs := Fs.Mount(image, reader).value;
    SplitAbsolute(ROOT);
    assert Split(ROOT)[1..] == Split([]) && Split([]) == [[]] && Split([])[1..] == [];
    assert Fs.Descend(fs.image, Fs.Root(fs), Split([])) == Ok(Fs.Root(fs));
  }

  /** `cd name` and `cd ..`: there and back, from any directory of the image. */
  lemma CdThereAndBack(cwd: seq<byte>, name: Name, image: Fs.Image, reader: Fs.Reader)
    requires Canonical(cwd) && Plain(name) && NamesDir(image, reader, cwd)
    requires NamesDir(image, reader, Canonicalized(cwd, name))
    ensures var down := Chdir(cwd, name, image, reader);
      && down == (if cwd == [47] then [] else cwd) + [47] + name
      && Chdir(down, [46, 46], image, reader) == cwd
    ensures Chdir([47], [46, 46], image, reader) == [47]
  {
    hide Canonical, NamesDir;
    CanonicalRenders(cwd);
    var stack :| AllPlain(stack) && cwd == Render(stack);
    StepByStep(stack, name, cwd);
    RenderedIs(stack, name);
    RootIsNameless(stack);
  }

  lemma RootIsNameless(stack: seq<Name>)
    requires AllPlain(stack)
    ensures Render(stack) == [47] <==> stack == []
  {
    if stack != [] { assert |stack[0]| > 0; }
  }

  /** After a `cd a` that succeeds, `cd b` does what `cd a/b` would have done. */
  lemma CdComposes(cwd: seq<byte>, a: seq<byte>, b: seq<byte>, image: Fs.Image, reader: Fs.Reader)
    requires a != [] && b != [] && !Absolute(b) && NamesDir(image, reader, Canonicalized(cwd, a))
    ensures var moved := Chdir(cwd, a, image, reader);
      if NamesDir(image, reader, Canonicalized(cwd, a + [SLASH] + b))
      then Chdir(moved, b, image, reader) == Chdir(cwd, a + [SLASH] + b, image, reader)
      else Chdir(moved, b, image, reader) == moved && Chdir(cwd, a + [SLASH] + b, image, reader) == cwd
  {
    CanonicalizedComposes(cwd, a, b);
  }
}
