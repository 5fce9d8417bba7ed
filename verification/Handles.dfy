/**
  File handles: 32 bytes that carry a table index with a verifier (good for one server
  lifetime) and a hash of the path below the export root (good across restarts). The two
  hash functions are parameters; nothing is assumed of them but what a lemma states.
*/
module Handles {
  import opened Bytes
  import opened Paths
  import Xdr

  const MAGIC: u32 := 0x4746_5348
  const FHSIZE := 32
  const MAX_DEPTH := 32

  /** `h64` of the relative path, in two words, and `h32` of the whole path. */
  datatype Hashes = Hashes(h64: Path -> (u32, u32), h32: Path -> u32)

  /** Names in directory order; a folder that cannot be opened is a `Leaf`. */
  datatype Listing = End | Entry(name: Path, node: Node, rest: Listing)
  datatype Node = Leaf | Folder(listing: Listing)

  datatype Table = Table(paths: seq<Path>, rebuilt: bool)

  // ---------------------------------------------------------------- the table as a value

  function IndexOf(paths: seq<Path>, p: Path): (i: nat)
    ensures i <= |paths|
    ensures i < |paths| ==> paths[i] == p
    ensures p !in paths[..i]
    ensures i == |paths| ==> p !in paths
  {
    if paths == [] then 0
    else if paths[0] == p then 0
    else
      var i := IndexOf(paths[1..], p);
      assert paths[..i + 1] == [paths[0]] + paths[1..][..i];
      assert paths == [paths[0]] + paths[1..];
      i + 1
  }

  function Intern(t: Table, p: Path): (r: Table)
    ensures p in r.paths && t.paths <= r.paths && r.rebuilt == t.rebuilt
    ensures forall q :: q in r.paths <==> q in t.paths || q == p
  {
    if p in t.paths then t else Table(t.paths + [p], t.rebuilt)
  }

  function InternAll(t: Table, ps: seq<Path>): (r: Table)
    ensures t.paths <= r.paths && r.rebuilt == t.rebuilt
    ensures forall q :: q in r.paths <==> q in t.paths || q in ps
    decreases |ps|
  {
    if ps == [] then t
    else
      assert forall q :: q in ps <==> q == ps[0] || q in ps[1..];
      InternAll(Intern(t, ps[0]), ps[1..])
  }

  /** Child path as the walk builds it. */
  function ChildOf(dir: Path, name: Path): Path
    requires dir != []
  {
    if dir[|dir| - 1] != SLASH then dir + [SLASH] + name else dir + name
  }

  /** A listed name the walk takes: not "." or "..", and short enough. */
  predicate Walked(dir: Path, name: Path) {
    name != DOTS && name != DOTDOT && |dir| + |name| + 2 <= PATH_MAX
  }

  /** Every path the walk interns, in order. */
  function Walk(dir: Path, listing: Listing, depth: nat): seq<Path>
    requires dir != []
    decreases listing
  {
    if depth > MAX_DEPTH then []
    else match listing
      case End => []
      case Entry(name, node, rest) => WalkEntry(dir, name, node, depth) + Walk(dir, rest, depth)
  }

  function WalkEntry(dir: Path, name: Path, node: Node, depth: nat): seq<Path>
    requires dir != []
    decreases node
  {
    if !Walked(dir, name) then []
    else [ChildOf(dir, name)] + match node case Leaf => [] case Folder(sub) => Walk(ChildOf(dir, name), sub, depth + 1)
  }

  function Rebuild(root: Path, tree: Listing, t: Table): Table
    requires root != []
  {
    if t.rebuilt then t
    else InternAll(Intern(Table(t.paths, true), root), Walk(root, tree, 0))
  }

  // ---------------------------------------------------------------- handles as values

  function Word(fh: seq<byte>, at: nat): u32
    requires at + 4 <= |fh|
  {
    Xdr.GetU32(fh, at).value.0
  }

  /** The handle for the path in table slot `i`. */
  function HandleOf(h: Hashes, root: Path, p: Path, i: nat): (fh: seq<byte>)
    ensures |fh| == FHSIZE
  {
    var (hi, lo) := h.h64(RelPath(root, p));
    Xdr.U32Bytes(i % 0x1_0000_0000) + Xdr.U32Bytes(MAGIC) + Xdr.U32Bytes(h.h32(p)) + Xdr.U32Bytes(hi) + Xdr.U32Bytes(lo) + Xdr.Zeros(12)
  }

  lemma HandleWords(h: Hashes, root: Path, p: Path, i: nat)
    ensures var fh := HandleOf(h, root, p, i);
      && Word(fh, 0) == i % 0x1_0000_0000 && Word(fh, 4) == MAGIC && Word(fh, 8) == h.h32(p)
      && (Word(fh, 12), Word(fh, 16)) == h.h64(RelPath(root, p))
  {
    var fh := HandleOf(h, root, p, i);
    var (hi, lo) := h.h64(RelPath(root, p));
    assert fh[0..4] == Xdr.U32Bytes(i % 0x1_0000_0000);
    assert fh[4..8] == Xdr.U32Bytes(MAGIC);
    assert fh[8..12] == Xdr.U32Bytes(h.h32(p));
    assert fh[12..16] == Xdr.U32Bytes(hi);
    assert fh[16..20] == Xdr.U32Bytes(lo);
    Xdr.WordReadsBack(i % 0x1_0000_0000, fh, 0);
    Xdr.WordReadsBack(MAGIC, fh, 4);
    Xdr.WordReadsBack(h.h32(p), fh, 8);
    Xdr.WordReadsBack(hi, fh, 12);
    Xdr.WordReadsBack(lo, fh, 16);
  }

  /** After its five words a handle is zero. */
  lemma HandleRest(h: Hashes, root: Path, p: Path, i: nat)
    ensures var fh := HandleOf(h, root, p, i); |fh| == 32 && forall k :: 20 <= k < 32 ==> fh[k] == 0
  {
  }

  function FromPath(h: Hashes, root: Path, t: Table, p: Path): (r: (Table, seq<byte>))
    ensures |r.1| == FHSIZE
  {
    (Intern(t, p), HandleOf(h, root, p, IndexOf(t.paths, p)))
  }

  /** First path in the table whose relative part has this hash. */
  function ByHash(h: Hashes, root: Path, paths: seq<Path>, hash: (u32, u32)): (r: Option<Path>)
    ensures r.Some? ==> r.value in paths && h.h64(RelPath(root, r.value)) == hash
    ensures r.None? ==> forall q :: q in paths ==> h.h64(RelPath(root, q)) != hash
  {
    if paths == [] then None
    else if h.h64(RelPath(root, paths[0])) == hash then Some(paths[0])
    else ByHash(h, root, paths[1..], hash)
  }

  predicate FastHit(h: Hashes, t: Table, fh: seq<byte>)
    requires |fh| == FHSIZE
  {
    Word(fh, 0) < |t.paths| && Word(fh, 8) == h.h32(t.paths[Word(fh, 0)])
  }

  function ToPath(h: Hashes, root: Path, tree: Listing, t: Table, fh: seq<byte>): (Table, Option<Path>)
    requires |fh| == FHSIZE && root != []
  {
    if Word(fh, 4) != MAGIC then (t, None)
    else if FastHit(h, t, fh) then (t, Some(t.paths[Word(fh, 0)]))
    else
      var hash := (Word(fh, 12), Word(fh, 16));
      if hash == (0, 0) then (t, None)
      else
        var found := ByHash(h, root, t.paths, hash);
        if found.Some? || t.rebuilt then (t, found)
        else
          var t1 := Rebuild(root, tree, t);
          (t1, ByHash(h, root, t1.paths, hash))
  }

  // ---------------------------------------------------------------- what the walk covers

  /** The tree holds an entry under this component list. */
  predicate InTree(listing: Listing, names: seq<Path>)
    decreases listing
  {
    match listing
    case End => false
    case Entry(name, node, rest) =>
      || (names != [] && names[0] == name && (|names| == 1 || (node.Folder? && InTree(node.listing, names[1..]))))
      || InTree(rest, names)
  }

  /** Directory entries have a nonempty name without a slash. */
  predicate WellNamed(listing: Listing) {
    match listing
    case End => true
    case Entry(name, node, rest) =>
      name != [] && SLASH !in name && (node.Folder? ==> WellNamed(node.listing)) && WellNamed(rest)
  }

  lemma {:induction false} RenderCons(root: Path, n: Path, names: seq<Path>)
    ensures Render(root, [n] + names) == Render(root + [SLASH] + n, names)
  {
    if names == [] {
      assert [n] + names == [n];
      assert [n][..0] == [];
      assert Render(root, [n]) == Render(root, []) + [SLASH] + n;
    } else {
      var init := names[..|names| - 1];
      assert ([n] + names)[..|names|] == [n] + init;
      RenderCons(root, n, init);
    }
  }

  /** Every path the walk interns renders a clean component list of the tree, within the guards. */
  lemma {:induction false} WalkSound(dir: Path, listing: Listing, depth: nat, p: Path) returns (names: seq<Path>)
    requires dir != [] && dir[|dir| - 1] != SLASH && WellNamed(listing) && p in Walk(dir, listing, depth)
    ensures names != [] && AllClean(names) && p == Render(dir, names) && InTree(listing, names)
    ensures |names| + depth <= MAX_DEPTH + 1 && |p| < PATH_MAX
    decreases listing
  {
    var Entry(name, node, rest) := listing;
    if p in Walk(dir, rest, depth) {
      names := WalkSound(dir, rest, depth, p);
    } else {
      var child := ChildOf(dir, name);
      assert name[|name| - 1] in name;
      if p == child {
        names := [name];
        assert names[..0] == [];
      } else {
        var deeper := WalkSound(child, node.listing, depth + 1, p);
        names := [name] + deeper;
        RenderCons(dir, name, deeper);
        assert names[1..] == deeper;
      }
    }
  }

  lemma {:induction false} WalkComplete(dir: Path, listing: Listing, depth: nat, names: seq<Path>)
    requires dir != [] && dir[|dir| - 1] != SLASH && AllClean(names) && InTree(listing, names)
    requires |names| + depth <= MAX_DEPTH + 1 && |Render(dir, names)| < PATH_MAX
    ensures names != [] && Render(dir, names) in Walk(dir, listing, depth)
    decreases listing
  {
    var Entry(name, node, rest) := listing;
    if InTree(rest, names) {
      WalkComplete(dir, rest, depth, names);
    } else {
      FirstStep(dir, names);
      var child := ChildOf(dir, name);
      if |names| > 1 {
        assert forall n :: n in names[1..] ==> n in names;
        WalkComplete(child, node.listing, depth + 1, names[1..]);
      } else {
        assert names[1..] == [];
      }
      assert Render(dir, names) in WalkEntry(dir, name, node, depth);
    }
  }

  lemma FirstStep(dir: Path, names: seq<Path>)
    requires dir != [] && dir[|dir| - 1] != SLASH && names != [] && AllClean(names) && |Render(dir, names)| < PATH_MAX
    ensures var child := dir + [SLASH] + names[0];
      && ChildOf(dir, names[0]) == child && child[|child| - 1] != SLASH && Walked(dir, names[0])
      && Render(dir, names) == Render(child, names[1..])
  {
    var child := dir + [SLASH] + names[0];
    assert names == [names[0]] + names[1..];
    assert names[0] in names;
    RenderCons(dir, names[0], names[1..]);
    assert child[|child| - 1] == names[0][|names[0]| - 1];
    assert child[|child| - 1] in names[0];
    assert |child| <= |Render(child, names[1..])|;
  }

  /** The walk reaches exactly the entries within the depth and length guards. */
  lemma WalkExact(root: Path, tree: Listing, names: seq<Path>)
    requires GoodRoot(root) && WellNamed(tree) && AllClean(names)
    ensures Render(root, names) in Walk(root, tree, 0) <==>
      InTree(tree, names) && |names| <= 33 && |Render(root, names)| < 1024
  {
    if Render(root, names) in Walk(root, tree, 0) {
      var ns := WalkSound(root, tree, 0, Render(root, names));
      RenderInjective(root, ns, names);
    }
    if InTree(tree, names) && |names| <= MAX_DEPTH + 1 && |Render(root, names)| < PATH_MAX {
      WalkComplete(root, tree, 0, names);
    }
  }

  // ---------------------------------------------------------------- restarts

  /** Every path in the table lies inside the export. */
  ghost predicate Confined(root: Path, t: Table) {
    forall p :: p in t.paths ==> Inside(root, p) && |p| < PATH_MAX
  }

  lemma RebuildConfined(root: Path, tree: Listing, t: Table)
    requires GoodRoot(root) && WellNamed(tree) && Confined(root, t)
    ensures Confined(root, Rebuild(root, tree, t))
  {
    forall p | p in Rebuild(root, tree, t).paths ensures Inside(root, p) && |p| < PATH_MAX {
      if p in Walk(root, tree, 0) {
        var names := WalkSound(root, tree, 0, p);
      } else if p == root {
        assert AllClean([]) && p == Render(root, []);
      }
    }
  }

  /** Neither hash of `p` (relative part `rel`) collides with a path of the table `t`, and the hash is not the reserved zero. */
  predicate NoCollision(h: Hashes, root: Path, t: Table, p: Path, rel: Path) {
    && h.h64(rel) != (0, 0)
    && (forall q :: q in t.paths ==> h.h64(RelPath(root, q)) == h.h64(rel) ==> RelPath(root, q) == rel)
    && (forall q :: q in t.paths ==> h.h32(q) == h.h32(p) ==> q == p)
  }

  lemma ByHashIs(h: Hashes, root: Path, t: Table, p: Path, names: seq<Path>)
    requires GoodRoot(root) && Confined(root, t) && AllClean(names) && NoCollision(h, root, t, p, Rel(names))
    ensures ByHash(h, root, t.paths, h.h64(Rel(names))) ==
      if Render(root, names) in t.paths then Some(Render(root, names)) else None
  {
    RelPathIs(root, names);
    var r := ByHash(h, root, t.paths, h.h64(Rel(names)));
    if r.Some? { InsideByRel(root, r.value, names); }
  }

  /** The path below the new root that a later run can find: already interned, or within reach of its one walk. */
  predicate Findable(root: Path, tree: Listing, t: Table, names: seq<Path>) {
    || Render(root, names) in t.paths
    || (!t.rebuilt && (names == [] || (InTree(tree, names) && |names| <= 33 && |Render(root, names)| < 1024)))
  }

  /** How an issued handle is resolved, by what it carries. */
  lemma ToPathOfHandle(h: Hashes, old_: Path, root: Path, tree: Listing, t: Table, p: Path, i: nat, fh: seq<byte>)
    requires root != [] && i < 0x1_0000_0000 && h.h64(RelPath(old_, p)) != (0, 0) && fh == HandleOf(h, old_, p, i)
    ensures ToPath(h, root, tree, t, fh) == Resolve(h, root, tree, t, p, i, h.h64(RelPath(old_, p)))
  {
    HandleWords(h, old_, p, i);
    ToPathByWords(h, root, tree, t, fh, p, i, h.h64(RelPath(old_, p)));
  }

  lemma ToPathByWords(h: Hashes, root: Path, tree: Listing, t: Table, fh: seq<byte>, p: Path, i: nat, hash: (u32, u32))
    requires root != [] && |fh| == FHSIZE && hash != (0, 0)
    requires Word(fh, 0) == i && Word(fh, 4) == MAGIC && Word(fh, 8) == h.h32(p) && (Word(fh, 12), Word(fh, 16)) == hash
    ensures ToPath(h, root, tree, t, fh) == Resolve(h, root, tree, t, p, i, hash)
  {
  }

  /** The index first, checked by the hash of the whole path; then the hash of the relative path, walking once if need be. */
  function Resolve(h: Hashes, root: Path, tree: Listing, t: Table, p: Path, i: nat, hash: (u32, u32)): (Table, Option<Path>)
    requires root != []
  {
    if i < |t.paths| && h.h32(p) == h.h32(t.paths[i]) then (t, Some(t.paths[i]))
    else
      var found := ByHash(h, root, t.paths, hash);
      if found.Some? || t.rebuilt then (t, found)
      else
        var t1 := Rebuild(root, tree, t);
        (t1, ByHash(h, root, t1.paths, hash))
  }

  lemma ResolveExact(h: Hashes, root: Path, tree: Listing, t: Table, p: Path, names: seq<Path>, i: nat)
    requires GoodRoot(root) && WellNamed(tree) && AllClean(names) && Confined(root, t)
    requires NoCollision(h, root, Rebuild(root, tree, t), p, Rel(names))
    ensures var (t1, r) := Resolve(h, root, tree, t, p, i, h.h64(Rel(names)));
      && Confined(root, t1) && (t1 == t || t1 == Rebuild(root, tree, t))
      && (i < |t.paths| && t.paths[i] == p ==> r == Some(p))
      && (!(i < |t.paths| && t.paths[i] == p) ==> r == if Findable(root, tree, t, names) then Some(Render(root, names)) else None)
  {
    var t1 := Rebuild(root, tree, t);
    RebuildConfined(root, tree, t);
    assert forall q :: q in t.paths ==> q in t1.paths;
    ByHashIs(h, root, t, p, names);
    ByHashIs(h, root, t1, p, names);
    WalkExact(root, tree, names);
  }

  lemma SameBelow(a: Path, b: Path, names: seq<Path>)
    requires AllClean(names)
    ensures Render(a, names) == Render(b, names) <==> a == b
  {
    RenderRel(a, names);
    RenderRel(b, names);
    if Render(a, names) == Render(b, names) {
      assert a == Render(a, names)[..|a|] && b == Render(b, names)[..|b|];
    }
  }

  /**
    A handle issued for old/names by one run, resolved by a later run that exports the
    same or another directory as `root`, from any table that run can hold. Unless the
    handle's index happens to name a slot that holds the old absolute path, it resolves
    to root/names exactly when that path is interned or within reach of the walk, and to
    nothing otherwise; at most one walk is made and the table stays inside the export.
    A path that can be found is found, unless the roots differ and the slot is so taken.
  */
  lemma HandleSurvivesRestart(h: Hashes, old_: Path, root: Path, tree: Listing, t: Table, names: seq<Path>, i: nat)
    requires GoodRoot(old_) && GoodRoot(root) && WellNamed(tree) && AllClean(names)
    requires Confined(root, t) && i < 0x1_0000_0000
    requires NoCollision(h, root, Rebuild(root, tree, t), Render(old_, names), Rel(names))
    ensures var (t1, r) := ToPath(h, root, tree, t, HandleOf(h, old_, Render(old_, names), i));
      && Confined(root, t1) && (t1 == t || t1 == Rebuild(root, tree, t))
      && (i < |t.paths| && t.paths[i] == Render(old_, names) ==> r == Some(Render(old_, names)))
      && (!(i < |t.paths| && t.paths[i] == Render(old_, names)) ==>
            r == if Findable(root, tree, t, names) then Some(Render(root, names)) else None)
      && (Findable(root, tree, t, names) ==>
            (r == Some(Render(root, names)) <==> old_ == root || !(i < |t.paths| && t.paths[i] == Render(old_, names))))
  {
    var p := Render(old_, names);
    SameBelow(old_, root, names);
    RelPathIs(old_, names);
    ToPathOfHandle(h, old_, root, tree, t, p, i, HandleOf(h, old_, p, i));
    ResolveExact(h, root, tree, t, p, names, i);
  }

  /**
    Across a restart with the same export directory, or with one that the old path does
    not lie under, the index can do no harm: the handle resolves to the path it stands
    for below the new root, or to nothing.
  */
  lemma HandleSurvivesMove(h: Hashes, old_: Path, root: Path, tree: Listing, t: Table, names: seq<Path>, i: nat)
    requires old_ == root || !(root <= Render(old_, names))
    requires GoodRoot(old_) && GoodRoot(root) && WellNamed(tree) && AllClean(names)
    requires Confined(root, t) && i < 0x1_0000_0000
    requires NoCollision(h, root, Rebuild(root, tree, t), Render(old_, names), Rel(names))
    ensures ToPath(h, root, tree, t, HandleOf(h, old_, Render(old_, names), i)).1 ==
      if Findable(root, tree, t, names) then Some(Render(root, names)) else None
  {
    HandleSurvivesRestart(h, old_, root, tree, t, names, i);
    if i < |t.paths| && t.paths[i] == Render(old_, names) {
      assert t.paths[i] in t.paths;
      InsidePrefix(root, t.paths[i]);
    }
  }

  lemma InsidePrefix(root: Path, p: Path)
    requires Inside(root, p)
    ensures root <= p
  {
    var names :| AllClean(names) && p == Render(root, names);
    RenderRel(root, names);
  }

  /** A handle just issued resolves at once to its path, without a walk. */
  lemma FreshHandleResolves(h: Hashes, root: Path, tree: Listing, t: Table, p: Path)
    requires root != [] && |t.paths| < 0x1_0000_0000
    ensures var (t1, fh) := FromPath(h, root, t, p); ToPath(h, root, tree, t1, fh) == (t1, Some(p))
  {
    var i := IndexOf(t.paths, p);
    HandleWords(h, root, p, i);
    IndexHits(h, root, tree, Intern(t, p), HandleOf(h, root, p, i), p, i);
  }

  /**
    A handle without the server's mark stands for nothing; nor does one whose path hash is
    the reserved zero, unless its index finds the path. No walk is made for either.
  */
  lemma ForeignHandle(h: Hashes, root: Path, tree: Listing, t: Table, fh: seq<byte>)
    requires |fh| == FHSIZE && root != []
    ensures Word(fh, 4) != 0x4746_5348 ==> ToPath(h, root, tree, t, fh) == (t, None)
    ensures Word(fh, 12) == Word(fh, 16) == 0 && !(Word(fh, 0) < |t.paths| && Word(fh, 8) == h.h32(t.paths[Word(fh, 0)])) ==>
      ToPath(h, root, tree, t, fh) == (t, None)
  {
  }

  lemma IndexHits(h: Hashes, root: Path, tree: Listing, t: Table, fh: seq<byte>, p: Path, i: nat)
    requires root != [] && |fh| == FHSIZE && i < |t.paths| && t.paths[i] == p
    requires Word(fh, 4) == MAGIC && Word(fh, 0) == i && Word(fh, 8) == h.h32(p)
    ensures ToPath(h, root, tree, t, fh) == (t, Some(p))
  {
  }

  // ---------------------------------------------------------------- what a server issues

  /** The slots of every table a server can hold: no path twice, and the root, if anything, first. */
  ghost predicate Slots(root: Path, t: Table) {
    && (t.paths != [] ==> t.paths[0] == root)
    && forall i, j :: 0 <= i < j < |t.paths| ==> t.paths[i] != t.paths[j]
  }

  lemma InternSlots(root: Path, t: Table, p: Path)
    requires Slots(root, t) && (t.paths != [] || p == root)
    ensures Slots(root, Intern(t, p))
  {
  }

  lemma {:induction false} InternAllSlots(root: Path, t: Table, ps: seq<Path>)
    requires Slots(root, t) && t.paths != []
    ensures Slots(root, InternAll(t, ps))
    decreases |ps|
  {
    if ps != [] {
      InternSlots(root, t, ps[0]);
      InternAllSlots(root, Intern(t, ps[0]), ps[1..]);
    }
  }

  /** Resolving a handle keeps the slots, and only a table that holds the root resolves anything. */
  lemma ToPathSlots(h: Hashes, root: Path, tree: Listing, t: Table, fh: seq<byte>)
    requires root != [] && |fh| == FHSIZE && Slots(root, t)
    ensures var (t1, r) := ToPath(h, root, tree, t, fh); Slots(root, t1) && (r.Some? ==> t1.paths != [])
  {
    if !t.rebuilt {
      InternSlots(root, Table(t.paths, true), root);
      InternAllSlots(root, Intern(Table(t.paths, true), root), Walk(root, tree, 0));
    }
  }

  /** Index 0 is the root's: a handle issued for any other path has another index. */
  lemma IssuedIndex(root: Path, t: Table, p: Path)
    requires Slots(root, t) && t.paths != [] && p != root
    ensures IndexOf(t.paths, p) > 0
  {
  }

  /**
    The one exception in `HandleSurvivesRestart`, for a handle that was issued for a path
    other than its root: the old path lies strictly below the new root.
  */
  lemma ExceptionIsBelow(old_: Path, root: Path, t0: Table, t: Table, p: Path)
    requires Slots(old_, t0) && t0.paths != [] && p != old_
    requires Slots(root, t) && Confined(root, t)
    requires var i := IndexOf(t0.paths, p); i < |t.paths| && t.paths[i] == p
    ensures p != root && exists names :: names != [] && AllClean(names) && p == Render(root, names)
  {
    var i := IndexOf(t0.paths, p);
    IssuedIndex(old_, t0, p);
    assert t.paths[0] != t.paths[i];
    assert t.paths[i] in t.paths;
    var names :| AllClean(names) && p == Render(root, names);
    assert names != [];
  }

  /**
    When the export directory moves to one of its own subdirectories the index can win: a
    handle that a server for `a` issued for a/m/c, its third path, resolves, in a server
    for a/m that has issued its root, a/m/x and a/m/c, to a/m/c and not to a/m/m/c.
  */
  lemma NestedRootMisresolves(h: Hashes, tree: Listing, a: Path, m: Path, c: Path, x: Path)
    requires GoodRoot(a) && AllClean([m, c, x]) && c != x
    ensures var root, empty := Below(a, m), Table([], false);
      var p := Below(root, c);
      var t0, t := InternAll(empty, [a, root]), InternAll(empty, [root, Below(root, x), p]);
      && p == Render(a, [m, c]) && Render(root, [m, c]) != p
      && Slots(a, t0) && Slots(root, t)
      && ToPath(h, root, tree, t, FromPath(h, a, t0, p).1).1 == Some(p)
  {
    var root := Below(a, m);
    var p, q := Below(root, c), Below(root, x);
    RenderTwo(a, m, c);
    RenderTwo(root, m, c);
    BelowDiffer(root, c, x);
    InternedList([a, root]);
    InternedList([root, q, p]);
    ThirdIndex(a, root, p);
    ThirdResolves(h, a, root, tree, q, p);
  }

  lemma ThirdResolves(h: Hashes, old_: Path, root: Path, tree: Listing, q: Path, p: Path)
    requires root != []
    ensures ToPath(h, root, tree, Table([root, q, p], false), HandleOf(h, old_, p, 2)).1 == Some(p)
  {
    HandleWords(h, old_, p, 2);
    IndexHits(h, root, tree, Table([root, q, p], false), HandleOf(h, old_, p, 2), p, 2);
  }

  function Below(dir: Path, name: Path): (p: Path)
    ensures |p| > |dir|
  {
    dir + [SLASH] + name
  }

  lemma BelowDiffer(dir: Path, a: Path, b: Path)
    ensures Below(dir, a) == Below(dir, b) <==> a == b
  {
    assert Below(dir, a)[|dir| + 1..] == a && Below(dir, b)[|dir| + 1..] == b;
  }

  lemma ThirdIndex(a: Path, b: Path, p: Path)
    requires a != p && b != p
    ensures IndexOf([a, b], p) == 2
  {
    assert [a, b][1..] == [b];
  }

  lemma RenderTwo(root: Path, a: Path, b: Path)
    ensures Render(root, [a, b]) == Below(Below(root, a), b)
  {
    assert [a, b][..1] == [a] && [a][..0] == [];
    assert Render(root, [a]) == Render(root, []) + [SLASH] + a;
  }

  /** Interning different paths from an empty table lists them. */
  lemma InternedList(ps: seq<Path>)
    requires forall i, j :: 0 <= i < j < |ps| ==> ps[i] != ps[j]
    ensures InternAll(Table([], false), ps) == Table(ps, false)
  {
    InternedAfter([], ps);
  }

  lemma {:induction false} InternedAfter(before: seq<Path>, ps: seq<Path>)
    requires forall i, j :: 0 <= i < j < |before + ps| ==> (before + ps)[i] != (before + ps)[j]
    ensures InternAll(Table(before, false), ps) == Table(before + ps, false)
    decreases |ps|
  {
    if ps == [] {
      assert before + ps == before;
    } else {
      assert ps[0] !in before by {
        forall k | 0 <= k < |before| ensures before[k] != ps[0] { assert (before + ps)[k] != (before + ps)[|before|]; }
      }
      assert (before + [ps[0]]) + ps[1..] == before + ps;
      InternedAfter(before + [ps[0]], ps[1..]);
    }
  }

  // ---------------------------------------------------------------- the table in place

  lemma {:induction false} InternAllAppend(t: Table, a: seq<Path>, b: seq<Path>)
    ensures InternAll(t, a + b) == InternAll(InternAll(t, a), b)
    decreases |a|
  {
    if a == [] {
      assert a + b == b;
    } else {
      assert (a + b)[1..] == a[1..] + b;
      InternAllAppend(Intern(t, a[0]), a[1..], b);
    }
  }

  lemma {:induction false} IndexOfUnique(paths: seq<Path>, p: Path, i: nat)
    requires i <= |paths| && p !in paths[..i] && (i < |paths| ==> paths[i] == p)
    ensures IndexOf(paths, p) == i
  {
    var k := IndexOf(paths, p);
    assert forall j :: 0 <= j < i ==> paths[j] == paths[..i][j];
    assert forall j :: 0 <= j < k ==> paths[j] == paths[..k][j];
  }

  class FhTable {
    const h: Hashes
    const root: Path
    var paths: seq<Path>
    var hi: seq<u32>
    var lo: seq<u32>
    var rebuilt: bool

    ghost predicate Valid()
      reads this
    {
      && root != []
      && |hi| == |lo| == |paths|
      && forall i :: 0 <= i < |paths| ==> (hi[i], lo[i]) == h.h64(RelPath(root, paths[i]))
    }

    ghost function Abs(): Table
      reads this
    {
      Table(paths, rebuilt)
    }

    constructor (hashes: Hashes, export_: Path)
      requires export_ != []
      ensures Valid() && h == hashes && root == export_ && Abs() == Table([], false)
    {
      h, root := hashes, export_;
      paths, hi, lo, rebuilt := [], [], [], false;
    }

    method InternPath(p: Path) returns (i: nat)
      requires Valid()
      modifies this
      ensures Valid() && Abs() == Intern(old(Abs()), p)
      ensures i == IndexOf(old(paths), p) && i < |paths| && paths[i] == p
    {
      i := 0;
      while i < |paths|
        invariant 0 <= i <= |paths| && p !in paths[..i]
      {
        if paths[i] == p {
          IndexOfUnique(paths, p, i);
          return;
        }
        i := i + 1;
      }
      assert paths[..i] == paths;
      IndexOfUnique(paths, p, i);
      var hash := h.h64(RelPath(root, p));
      paths, hi, lo := paths + [p], hi + [hash.0], lo + [hash.1];
    }

    method FhFromPath(p: Path) returns (fh: seq<byte>)
      requires Valid()
      modifies this
      ensures Valid() && (Abs(), fh) == FromPath(h, root, old(Abs()), p)
    {
      var i := InternPath(p);
      fh := Xdr.U32Bytes(i % 0x1_0000_0000) + Xdr.U32Bytes(MAGIC) + Xdr.U32Bytes(h.h32(p))
          + Xdr.U32Bytes(hi[i]) + Xdr.U32Bytes(lo[i]) + Xdr.Zeros(12);
    }

    /** Intern a directory's entries, going down into subdirectories as they come. */
    method RebuildDir(dir: Path, listing: Listing, depth: nat)
      requires Valid() && dir != []
      modifies this
      ensures Valid() && Abs() == InternAll(old(Abs()), Walk(dir, listing, depth))
      decreases listing, 1
    {
      if depth > MAX_DEPTH {
        return;
      }
      var cur := listing;
      ghost var t0 := Abs();
      while cur.Entry?
        invariant Valid() && (cur == listing || cur < listing)
        invariant InternAll(t0, Walk(dir, listing, depth)) == InternAll(Abs(), Walk(dir, cur, depth))
        decreases cur
      {
        InternAllAppend(Abs(), WalkEntry(dir, cur.name, cur.node, depth), Walk(dir, cur.rest, depth));
        TakeEntry(dir, cur.name, cur.node, depth, listing);
        cur := cur.rest;
      }
    }

    method TakeEntry(dir: Path, name: Path, node: Node, depth: nat, ghost within: Listing)
      requires Valid() && dir != [] && node < within
      modifies this
      ensures Valid() && Abs() == InternAll(old(Abs()), WalkEntry(dir, name, node, depth))
      decreases within, 0
    {
      if !Walked(dir, name) {
        return;
      }
      var child := ChildOf(dir, name);
      ghost var sub := match node case Leaf => [] case Folder(l) => Walk(child, l, depth + 1);
      assert ([child] + sub)[1..] == sub;
      var _ := InternPath(child);
      if node.Folder? {
        RebuildDir(child, node.listing, depth + 1);
      }
    }

    method RebuildAll(tree: Listing)
      requires Valid()
      modifies this
      ensures Valid() && Abs() == Rebuild(root, tree, old(Abs()))
    {
      if rebuilt {
        return;
      }
      rebuilt := true;
      var _ := InternPath(root);
      RebuildDir(root, tree, 0);
    }

    /** The lookup loop: it goes round again only after a walk, so at most twice. */
    method FhToPath(tree: Listing, fh: seq<byte>) returns (r: Option<Path>)
      requires Valid() && |fh| == FHSIZE
      modifies this
      ensures Valid() && (Abs(), r) == ToPath(h, root, tree, old(Abs()), fh)
    {
      if Word(fh, 4) != MAGIC {
        return None;
      }
      var idx := Word(fh, 0);
      if idx < |paths| && Word(fh, 8) == h.h32(paths[idx]) {
        return Some(paths[idx]);
      }
      var hash := (Word(fh, 12), Word(fh, 16));
      if hash == (0, 0) {
        return None;
      }
      while true
        invariant Valid()
        invariant Abs() == old(Abs()) || (Abs() == Rebuild(root, tree, old(Abs())) && rebuilt
          && !old(rebuilt) && ByHash(h, root, old(paths), hash).None?)
        decreases !rebuilt
      {
        r := FindHash(hash);
        if r.Some? {
          return;
        }
        if rebuilt {
          return None;
        }
        RebuildAll(tree);
      }
    }

    method FindHash(hash: (u32, u32)) returns (r: Option<Path>)
      requires Valid()
      ensures r == ByHash(h, root, paths, hash)
    {
      var i := 0;
      while i < |paths|
        invariant 0 <= i <= |paths|
        invariant ByHash(h, root, paths, hash) == ByHash(h, root, paths[i..], hash)
      {
        if hi[i] == hash.0 && lo[i] == hash.1 {
          return Some(paths[i]);
        }
        assert paths[i..][1..] == paths[i + 1..];
        i := i + 1;
      }
      return None;
    }
  }
}
