/**
  Path names inside the export: byte strings built from the export root and a list of
  component names. `JoinChild` is the string operation of the server; `Step` is the push
  and pop on component lists that it stands for.
*/
module Paths {
  import opened Bytes

  type Path = seq<byte>

  const SLASH: byte := 47
  const DOT: byte := 46
  const DOTS: Path := [46]
  const DOTDOT: Path := [46, 46]
  const PATH_MAX := 1024

  /** A name that stands for an entry of its own. */
  predicate Clean(name: Path) {
    name != [] && SLASH !in name && name != DOTS && name != DOTDOT
  }

  predicate AllClean(names: seq<Path>) {
    forall n :: n in names ==> Clean(n)
  }

  /** The export root: set, and stripped of trailing slashes, so not "/" either. */
  predicate GoodRoot(root: Path) {
    root != [] && root[|root| - 1] != SLASH && |root| < PATH_MAX
  }

  function Render(root: Path, names: seq<Path>): (p: Path)
    ensures |p| >= |root|
    ensures names != [] ==> |p| > |root|
  {
    if names == [] then root else Render(root, names[..|names| - 1]) + [SLASH] + names[|names| - 1]
  }

  /** The root or a path below it, with clean components only. */
  ghost predicate Inside(root: Path, p: Path) {
    exists names :: AllClean(names) && p == Render(root, names)
  }

  // ---------------------------------------------------------------- joining

  /** Position of the last slash, if there is one. */
  function LastSlash(p: Path): (r: Option<nat>)
    ensures r.Some? ==> r.value < |p| && p[r.value] == SLASH && SLASH !in p[r.value + 1..]
    ensures r.None? ==> SLASH !in p
  {
    if p == [] then None
    else if p[|p| - 1] == SLASH then Some(|p| - 1)
    else
      var r := LastSlash(p[..|p| - 1]);
      assert r.Some? ==> p[r.value + 1..] == p[..|p| - 1][r.value + 1..] + [p[|p| - 1]];
      r
  }

  /** dir + "/" + name with "." and ".." resolved, ".." clamped at the export root. */
  function JoinChild(root: Path, dir: Path, name: Path, max: nat): Option<Path> {
    if name == [] || SLASH in name then None
    else if name == DOTS then if |dir| >= max then None else Some(dir)
    else if name == DOTDOT then
      if dir == root then Some(dir)
      else if |dir| >= max then None
      else
        var slash := LastSlash(dir);
        if slash.Some? && slash.value != 0 then Some(dir[..slash.value]) else Some(dir)
    else if |dir| + 1 + |name| >= max then None
    else Some(dir + [SLASH] + name)
  }

  /** What a name does to a component list. */
  function Step(names: seq<Path>, name: Path): seq<Path> {
    if name == DOTS then names
    else if name == DOTDOT then if names == [] then [] else names[..|names| - 1]
    else names + [name]
  }

  lemma LastSlashUnique(p: Path, k: nat)
    requires k < |p| && p[k] == SLASH && SLASH !in p[k + 1..]
    ensures LastSlash(p) == Some(k)
  {
    assert forall i :: k < i < |p| ==> p[i] in p[k + 1..] by {
      assert forall i :: k < i < |p| ==> p[k + 1..][i - k - 1] == p[i];
    }
    var r := LastSlash(p);
    if r.Some? {
      assert forall i :: r.value < i < |p| ==> p[i] in p[r.value + 1..] by {
        assert forall i :: r.value < i < |p| ==> p[r.value + 1..][i - r.value - 1] == p[i];
      }
    }
  }

  lemma RenderSplit(root: Path, names: seq<Path>)
    requires names != [] && AllClean(names)
    ensures var dir := Render(root, names[..|names| - 1]);
            LastSlash(Render(root, names)) == Some(|dir|) && Render(root, names)[..|dir|] == dir
  {
    var dir, last := Render(root, names[..|names| - 1]), names[|names| - 1];
    var p := Render(root, names);
    assert last in names;
    assert p == dir + [SLASH] + last;
    assert p[|dir| + 1..] == last;
    LastSlashUnique(p, |dir|);
  }

  /** Joining refines push and pop: exactly the names without a slash are taken, and the
      result is the rendering of the stepped component list whenever it is short enough. */
  lemma JoinRefines(root: Path, names: seq<Path>, name: Path)
    requires GoodRoot(root) && AllClean(names) && |Render(root, names)| < PATH_MAX
    ensures AllClean(Step(names, name)) || name == [] || SLASH in name
    ensures JoinChild(root, Render(root, names), name, PATH_MAX) ==
      if name == [] || SLASH in name || |Render(root, Step(names, name))| >= PATH_MAX then None
      else Some(Render(root, Step(names, name)))
  {
    var dir := Render(root, names);
    if name == DOTDOT && names != [] {
      RenderSplit(root, names);
    } else if name != [] && SLASH !in name && name != DOTS && name != DOTDOT {
      assert (names + [name])[..|names|] == names;
    }
  }

  /** What the three kinds of names lead to: "." to the directory, ".." to its parent, though not above the root, any other to its entry. */
  lemma JoinMeans(root: Path, names: seq<Path>, n: Path)
    requires GoodRoot(root) && AllClean(names) && Clean(n) && |Render(root, names)| + 1 + |n| < 1024
    ensures JoinChild(root, Render(root, names), [46], PATH_MAX) == Some(Render(root, names))
    ensures JoinChild(root, Render(root, names + [n]), [46, 46], PATH_MAX) == Some(Render(root, names))
    ensures JoinChild(root, root, [46, 46], PATH_MAX) == Some(root)
    ensures JoinChild(root, Render(root, names), n, PATH_MAX) == Some(Render(root, names) + [47] + n)
  {
    assert (names + [n])[..|names|] == names;
    JoinRefines(root, names, [46]);
    JoinRefines(root, names + [n], [46, 46]);
    JoinRefines(root, names, n);
  }

  lemma JoinInside(root: Path, dir: Path, name: Path)
    requires GoodRoot(root) && Inside(root, dir) && |dir| < PATH_MAX
    ensures var j := JoinChild(root, dir, name, PATH_MAX); j.Some? ==> Inside(root, j.value) && |j.value| < PATH_MAX
  {
    var names :| AllClean(names) && dir == Render(root, names);
    JoinRefines(root, names, name);
  }

  // ---------------------------------------------------------------- relative paths

  function SkipSlashes(p: Path): Path {
    if p != [] && p[0] == SLASH then SkipSlashes(p[1..]) else p
  }

  /** The path below the export root; a path elsewhere is left as it is. */
  function RelPath(root: Path, p: Path): Path {
    if |root| > 0 && root <= p then SkipSlashes(p[|root|..]) else p
  }

  /** The components joined by slashes. */
  function Rel(names: seq<Path>): Path {
    if names == [] then []
    else if |names| == 1 then names[0]
    else Rel(names[..|names| - 1]) + [SLASH] + names[|names| - 1]
  }

  lemma {:induction false} RenderRel(root: Path, names: seq<Path>)
    requires AllClean(names)
    ensures Render(root, names) == if names == [] then root else root + [SLASH] + Rel(names)
    ensures names != [] ==> Rel(names) != [] && Rel(names)[0] != SLASH
  {
    if names != [] {
      var init, last := names[..|names| - 1], names[|names| - 1];
      assert AllClean(init) && Clean(last) by { assert last in names; }
      RenderRel(root, init);
      if init != [] {
        assert root + [SLASH] + Rel(init) + [SLASH] + last == root + [SLASH] + (Rel(init) + [SLASH] + last);
      } else {
        assert last[0] in last;
      }
    }
  }

  /** Whatever the root, what is left below it is the joined component list. */
  lemma RelPathIs(root: Path, names: seq<Path>)
    requires GoodRoot(root) && AllClean(names)
    ensures RelPath(root, Render(root, names)) == Rel(names)
  {
    RenderRel(root, names);
    var p := Render(root, names);
    if names == [] {
      assert p[|root|..] == [];
    } else {
      var rel := Rel(names);
      assert root <= p && p[|root|..] == [SLASH] + rel;
      assert ([SLASH] + rel)[1..] == rel;
      assert SkipSlashes(rel) == rel;
    }
  }

  /** A path inside the export is determined by its relative part. */
  lemma InsideByRel(root: Path, p: Path, names: seq<Path>)
    requires GoodRoot(root) && Inside(root, p) && AllClean(names) && RelPath(root, p) == Rel(names)
    ensures p == Render(root, names)
  {
    var ns :| AllClean(ns) && p == Render(root, ns);
    RelPathIs(root, ns);
    RenderRel(root, ns);
    RenderRel(root, names);
  }

  /** Two component lists with the same rendering are the same. */
  lemma {:induction false} RenderInjective(root: Path, a: seq<Path>, b: seq<Path>)
    requires AllClean(a) && AllClean(b) && Render(root, a) == Render(root, b)
    ensures a == b
  {
    if a == [] || b == [] {
    } else {
      RenderSplit(root, a);
      RenderSplit(root, b);
      var a0, b0 := a[..|a| - 1], b[..|b| - 1];
      RenderInjective(root, a0, b0);
      var k := |Render(root, a0)| + 1;
      assert Render(root, a)[k..] == a[|a| - 1];
      assert Render(root, b)[k..] == b[|b| - 1];
      assert a == a0 + [a[|a| - 1]] && b == b0 + [b[|b| - 1]];
    }
  }
}
