/**
  What a call means: arguments laid out as in RFC 1094, with a handle the server has
  issued, have exactly the effect the procedure is named for, on exactly the path the
  handle and name stand for.
*/
module Calls {
  import opened Bytes
  import opened Paths
  import opened Handles
  import opened Nfs
  import Drc
  import Readdir
  import opened Rpc
  import Xdr

  // ---------------------------------------------------------------- arguments

  /** Wherever a datagram holds the encoding of a list of items, each is read after the ones before it. */
  lemma EncodedReads(s: seq<byte>, pos: nat, items: seq<Xdr.Item>, es: seq<seq<byte>>, i: nat)
    requires Xdr.AllFit(items) && i < |items| && es == Xdr.Encodings(items) && Lies(s, pos, Flatten(es))
    ensures Reads(s, pos + |Flatten(es[..i])|, items[i], pos + |Flatten(es[..i + 1])|)
  {
    PartReads(s, pos, items[i], es, i);
  }

  lemma PartReads(s: seq<byte>, pos: nat, it: Xdr.Item, parts: seq<seq<byte>>, i: nat)
    requires i < |parts| && it.Fits() && parts[i] == Xdr.ItemBytes(it)
    requires Lies(s, pos, Flatten(parts))
    ensures Reads(s, pos + |Flatten(parts[..i])|, it, pos + |Flatten(parts[..i + 1])|)
  {
    PartAt(s, pos, parts, i);
    ItemReads(s, pos + |Flatten(parts[..i])|, it, parts[i]);
  }

  lemma ItemReads(s: seq<byte>, pos: nat, it: Xdr.Item, e: seq<byte>)
    requires it.Fits() && e == Xdr.ItemBytes(it) && pos + |e| <= |s| && s[pos..pos + |e|] == e
    ensures Reads(s, pos, it, pos + |e|)
  {
    Xdr.ItemReadsBack(it, s, pos);
  }

  lemma PartAt(s: seq<byte>, pos: nat, parts: seq<seq<byte>>, i: nat)
    requires i < |parts| && pos + |Flatten(parts)| <= |s| && s[pos..pos + |Flatten(parts)|] == Flatten(parts)
    ensures var k := |Flatten(parts[..i])|;
      && |Flatten(parts[..i + 1])| == k + |parts[i]| && pos + k + |parts[i]| <= |s|
      && s[pos + k..pos + k + |parts[i]|] == parts[i]
  {
    FlattenAt(parts, i);
    SliceOfSlice(s, pos, |Flatten(parts)|, |Flatten(parts[..i])|, |parts[i]|);
  }

  /** The eight words of settable attributes: mode first, size fourth. */
  lemma SattrReads(s: seq<byte>, pos: nat, ws: seq<u32>)
    requires |ws| == 8 && forall k :: 0 <= k < 8 ==> Reads(s, pos + 4 * k, Xdr.U32(ws[k]), pos + 4 * k + 4)
    ensures Sattr(s, pos) == Some((ws[0], ws[3]))
  {
    assert Reads(s, pos + 4 * 0, Xdr.U32(ws[0]), pos + 4) && Reads(s, pos + 4 * 1, Xdr.U32(ws[1]), pos + 8);
    assert Reads(s, pos + 4 * 2, Xdr.U32(ws[2]), pos + 12) && Reads(s, pos + 4 * 3, Xdr.U32(ws[3]), pos + 16);
    assert Reads(s, pos + 4 * 4, Xdr.U32(ws[4]), pos + 20) && Reads(s, pos + 4 * 5, Xdr.U32(ws[5]), pos + 24);
    assert Reads(s, pos + 4 * 6, Xdr.U32(ws[6]), pos + 28) && Reads(s, pos + 4 * 7, Xdr.U32(ws[7]), pos + 32);
  }

  /** The handle the server issues for the path in a table slot. */
  function Issued<FS>(x: Export<FS>, w: World<FS>, i: nat): (fh: FileHandle)
    requires i < |w.table.paths|
  {
    HandleOf(x.hashes, x.root, w.table.paths[i], i)
  }

  /** Slot `i` holds root/names, and the table fits its indices. */
  predicate Interned<FS>(x: Export<FS>, w: World<FS>, i: nat, names: seq<Path>) {
    && GoodRoot(x.root) && AllClean(names) && i < |w.table.paths| < 0x1_0000_0000
    && w.table.paths[i] == Render(x.root, names) && |Render(x.root, names)| < PATH_MAX
  }

  /** A name for an entry whose path is not too long. */
  predicate Usable<FS>(x: Export<FS>, names: seq<Path>, n: Path) {
    Clean(n) && 0 !in n && |n| <= NAMEMAX && |Render(x.root, names + [n])| < PATH_MAX
  }

  /** A handle argument stands for the interned path. */
  lemma HandleArg<FS>(x: Export<FS>, w: World<FS>, s: seq<byte>, pos: nat, i: nat, names: seq<Path>, q: nat)
    requires Interned(x, w, i, names) && Reads(s, pos, Xdr.Fixed(Issued(x, w, i)), q)
    ensures Xdr.GetFixed(s, pos, FHSIZE) == Some((Issued(x, w, i), q))
    ensures Nfs.Resolve(x, w, Issued(x, w, i)) == (w, Some(Render(x.root, names)))
    ensures ArgFh(x, w, s, pos) == (w, Some((Render(x.root, names), q)))
  {
    IssuedResolves(x, w, i, names);
  }

  lemma IssuedResolves<FS>(x: Export<FS>, w: World<FS>, i: nat, names: seq<Path>)
    requires Interned(x, w, i, names)
    ensures Nfs.Resolve(x, w, Issued(x, w, i)) == (w, Some(Render(x.root, names)))
  {
    var p := w.table.paths[i];
    HandleWords(x.hashes, x.root, p, i);
    IndexHits(x.hashes, x.root, x.os.tree(w.fs), w.table, Issued(x, w, i), p, i);
  }

  lemma {:induction false} CStringIs(p: seq<byte>)
    requires 0 !in p
    ensures Xdr.CString(p) == p
  {
    if p != [] {
      assert p[0] in p;
      CStringIs(p[1..]);
    }
  }

  lemma StringArg(s: seq<byte>, pos: nat, n: seq<byte>, q: nat, max: nat)
    requires 0 !in n && |n| < max && Reads(s, pos, Xdr.Opaque(n), q)
    ensures Xdr.GetString(s, pos, max) == Some((n, q))
  {
    CStringIs(n);
  }

  /** A name argument stands for the entry of that name in the directory. */
  lemma NameArg<FS>(x: Export<FS>, s: seq<byte>, pos: nat, names: seq<Path>, n: Path, q: nat)
    requires GoodRoot(x.root) && AllClean(names) && |Render(x.root, names)| < PATH_MAX && Usable(x, names, n)
    requires Reads(s, pos, Xdr.Opaque(n), q)
    ensures Name(s, pos) == Some((n, q)) && Join(x, Render(x.root, names), n) == Some(Render(x.root, names + [n]))
  {
    StringArg(s, pos, n, q, NAMEMAX + 1);
    JoinRefines(x.root, names, n);
  }

  // ---------------------------------------------------------------- replies as RFC 1094 lays them out

  /** The reply body is the encoding of these items. */
  ghost predicate Says(a: Answer, items: seq<Xdr.Item>) {
    !a.NoReply? && Xdr.AllFit(items) && AnswerBytes(a) == Xdr.ItemsBytes(items)
  }

  function Us(ws: seq<u32>): seq<Xdr.Item> { seq(|ws|, i requires 0 <= i < |ws| => Xdr.U32(ws[i])) }

  lemma ItemsCons(it: Xdr.Item, items: seq<Xdr.Item>)
    requires it.Fits() && Xdr.AllFit(items)
    ensures Xdr.AllFit([it] + items) && Xdr.ItemsBytes([it] + items) == Xdr.ItemBytes(it) + Xdr.ItemsBytes(items)
  {
    assert Xdr.Encodings([it] + items) == [Xdr.ItemBytes(it)] + Xdr.Encodings(items);
    assert ([Xdr.ItemBytes(it)] + Xdr.Encodings(items))[1..] == Xdr.Encodings(items);
  }

  lemma ItemsNone()
    ensures Xdr.AllFit([]) && Xdr.ItemsBytes([]) == []
  {
  }

  lemma {:induction false} WordsAre(ws: seq<u32>)
    ensures Xdr.AllFit(Us(ws)) && Xdr.ItemsBytes(Us(ws)) == Words(ws)
  {
    if ws == [] {
      ItemsNone();
      assert Us(ws) == [];
    } else {
      WordsAre(ws[1..]);
      ItemsCons(Xdr.U32(ws[0]), Us(ws[1..]));
      assert Us(ws) == [Xdr.U32(ws[0])] + Us(ws[1..]);
    }
  }

  lemma ItemsTwo(a: Xdr.Item, b: Xdr.Item)
    requires a.Fits() && b.Fits()
    ensures Xdr.AllFit([a, b]) && Xdr.ItemsBytes([a, b]) == Xdr.ItemBytes(a) + Xdr.ItemBytes(b)
    ensures Xdr.AllFit([b]) && Xdr.ItemsBytes([b]) == Xdr.ItemBytes(b)
  {
    ItemsNone();
    ItemsCons(b, []);
    ItemsCons(a, [b]);
    assert [b] + [] == [b] && [a] + [b] == [a, b] && Xdr.ItemBytes(b) + [] == Xdr.ItemBytes(b);
  }

  /** A status alone; success, and then attributes, a handle, or both. */
  lemma AnswerSays(status: u32, attrs: Fattr, fh: FileHandle)
    ensures Says(Status(status), [Xdr.U32(status)])
    ensures Says(Attrs(attrs), [Xdr.U32(0)] + Us(attrs))
    ensures Says(NewHandle(fh), [Xdr.U32(0), Xdr.Fixed(fh)])
    ensures Says(HandleAttrs(fh, attrs), [Xdr.U32(0)] + ([Xdr.Fixed(fh)] + Us(attrs)))
  {
    WordsAre(attrs);
    ItemsTwo(Xdr.U32(status), Xdr.U32(status));
    ItemsTwo(Xdr.U32(0), Xdr.Fixed(fh));
    ItemsCons(Xdr.U32(0), Us(attrs));
    ItemsCons(Xdr.Fixed(fh), Us(attrs));
    ItemsCons(Xdr.U32(0), [Xdr.Fixed(fh)] + Us(attrs));
    Assoc(Xdr.U32Bytes(0), Xdr.FixedBytes(fh), Words(attrs));
  }

  /** The status of a failure, or success and the attributes. */
  lemma AttributesSay<FS>(w: World<FS>, r: Sys<Fattr>)
    ensures Attributes(w, r).world == w
    ensures Says(Attributes(w, r).answer, match r case Failed(e) => [Xdr.U32(NfsStatus(e))] case Did(a) => [Xdr.U32(0)] + Us(a))
  {
    var a := if r.Did? then r.value else seq(17, _ => 0);
    AnswerSays(if r.Failed? then NfsStatus(r.errno) else 0, a, seq(FHSIZE, _ => 0));
  }

  /** The status of a failure or success, and the file system as the operation left it. */
  lemma OutcomeSays<FS>(w: World<FS>, r: (FS, Sys<()>))
    ensures Outcome(w, r).world == World(r.0, w.table)
    ensures Says(Outcome(w, r).answer, [Xdr.U32(match r.1 case Failed(e) => NfsStatus(e) case Did(_) => 0)])
  {
    AnswerSays(match r.1 case Failed(e) => NfsStatus(e) case Did(_) => 0, seq(17, _ => 0), seq(FHSIZE, _ => 0));
  }

  lemma ReadSays(attrs: Fattr, data: seq<byte>)
    requires |data| <= READ_MAX
    ensures Says(Other(ReadBody(attrs, data)), [Xdr.U32(0)] + (Us(attrs) + [Xdr.Opaque(data)]))
  {
    WordsAre(attrs);
    ItemsTwo(Xdr.U32(0), Xdr.Opaque(data));
    ItemsAppend(Us(attrs), [Xdr.Opaque(data)]);
    ItemsCons(Xdr.U32(0), Us(attrs) + [Xdr.Opaque(data)]);
    Assoc(Xdr.U32Bytes(0), Words(attrs), Xdr.OpaqueBytes(data));
  }

  lemma ItemsAppend(a: seq<Xdr.Item>, b: seq<Xdr.Item>)
    requires Xdr.AllFit(a) && Xdr.AllFit(b)
    ensures Xdr.AllFit(a + b) && Xdr.ItemsBytes(a + b) == Xdr.ItemsBytes(a) + Xdr.ItemsBytes(b)
  {
    assert Xdr.Encodings(a + b) == Xdr.Encodings(a) + Xdr.Encodings(b);
    FlattenAppend(Xdr.Encodings(a), Xdr.Encodings(b));
  }

  lemma LinkSays(target: seq<byte>)
    requires |target| <= LINK_MAX
    ensures Says(Other(LinkBody(target)), [Xdr.U32(0), Xdr.Opaque(target)])
  {
    ItemsTwo(Xdr.U32(0), Xdr.Opaque(target));
  }

  lemma StatfsSays(size: u32, blocks: u32, free: u32, avail: u32)
    ensures Says(Other(Xdr.U32Bytes(NFS_OK) + Words([READ_MAX, size, blocks, free, avail])),
      [Xdr.U32(0), Xdr.U32(8192), Xdr.U32(size), Xdr.U32(blocks), Xdr.U32(free), Xdr.U32(avail)])
  {
    var ws: seq<u32> := [8192, size, blocks, free, avail];
    WordsAre(ws);
    ItemsCons(Xdr.U32(0), Us(ws));
    assert [Xdr.U32(0)] + Us(ws) == [Xdr.U32(0), Xdr.U32(8192), Xdr.U32(size), Xdr.U32(blocks), Xdr.U32(free), Xdr.U32(avail)];
  }

  lemma OneWordSays(v: u32)
    ensures Says(Other(Xdr.U32Bytes(v)), [Xdr.U32(v)])
  {
    ItemsTwo(Xdr.U32(v), Xdr.U32(v));
  }

  lemma ExportSays(root: Path, one: seq<byte>, size: seq<byte>, name: seq<byte>, zero: seq<byte>)
    requires |root| < 0x1_0000_0000 && one == Xdr.U32Bytes(1) && size == Xdr.U32Bytes(|root|) && name == Xdr.FixedBytes(root) && zero == Xdr.U32Bytes(0)
    ensures Says(Other(one + size + name + zero + zero), [Xdr.U32(1), Xdr.Opaque(root), Xdr.U32(0), Xdr.U32(0)])
  {
    var items := [Xdr.U32(1), Xdr.Opaque(root)];
    ItemsTwo(Xdr.U32(1), Xdr.Opaque(root));
    ItemsTwo(Xdr.U32(0), Xdr.U32(0));
    ItemsAppend(items, [Xdr.U32(0), Xdr.U32(0)]);
    assert items + [Xdr.U32(0), Xdr.U32(0)] == [Xdr.U32(1), Xdr.Opaque(root), Xdr.U32(0), Xdr.U32(0)];
    FiveParts(one, size, name, zero);
  }

  lemma FiveParts(a: seq<byte>, b: seq<byte>, c: seq<byte>, z: seq<byte>)
    ensures a + b + c + z + z == (a + (b + c)) + (z + z)
  {
  }

  /** No failure is taken for success, and failures that the protocol tells apart are told apart. */
  lemma StatusTells(e: Errno, f: Errno)
    ensures NfsStatus(e) != 0 && (NfsStatus(e) == NfsStatus(f) <==> e == f)
    ensures NfsStatus(EPERM) == 1 && NfsStatus(ENOENT) == 2 && NfsStatus(EOTHER) == 5 && NfsStatus(EACCES) == 13 && NfsStatus(EEXIST) == 17
    ensures NfsStatus(ENOTDIR) == 20 && NfsStatus(EISDIR) == 21 && NfsStatus(ENOSPC) == 28 && NfsStatus(ENAMETOOLONG) == 63 && NfsStatus(ENOTEMPTY) == 66
  {
  }

  // ---------------------------------------------------------------- what each call means

  // What runs for each procedure.

  lemma PerformsGetattr<FS>(x: Export<FS>, p: Proc, w: World<FS>, s: seq<byte>, pos: nat, r: Reply<FS>)
    requires p.GETATTR? && r == Getattr(x, w, s, pos)
    ensures Perform(x, p, w, s, pos) == r
  {
  }

  lemma PerformsSetattr<FS>(x: Export<FS>, p: Proc, w: World<FS>, s: seq<byte>, pos: nat, r: Reply<FS>)
    requires p.SETATTR? && r == Setattr(x, w, s, pos)
    ensures Perform(x, p, w, s, pos) == r
  {
  }

  lemma PerformsLookup<FS>(x: Export<FS>, p: Proc, w: World<FS>, s: seq<byte>, pos: nat, r: Reply<FS>)
    requires p.LOOKUP? && r == Nfs.Lookup(x, w, s, pos)
    ensures Perform(x, p, w, s, pos) == r
  {
  }

  lemma PerformsReadlink<FS>(x: Export<FS>, p: Proc, w: World<FS>, s: seq<byte>, pos: nat, r: Reply<FS>)
    requires p.READLINK? && r == Nfs.Readlink(x, w, s, pos)
    ensures Perform(x, p, w, s, pos) == r
  {
  }

  lemma PerformsRead<FS>(x: Export<FS>, p: Proc, w: World<FS>, s: seq<byte>, pos: nat, r: Reply<FS>)
    requires p.READ? && r == Nfs.Read(x, w, s, pos)
    ensures Perform(x, p, w, s, pos) == r
  {
  }

  lemma PerformsWrite<FS>(x: Export<FS>, p: Proc, w: World<FS>, s: seq<byte>, pos: nat, r: Reply<FS>)
    requires p.WRITE? && r == Nfs.Write(x, w, s, pos)
    ensures Perform(x, p, w, s, pos) == r
  {
  }

  lemma PerformsRemove<FS>(x: Export<FS>, p: Proc, w: World<FS>, s: seq<byte>, pos: nat, r: Reply<FS>)
    requires p.REMOVE? && r == Remove(x, false, w, s, pos)
    ensures Perform(x, p, w, s, pos) == r
  {
  }

  lemma PerformsRmdir<FS>(x: Export<FS>, p: Proc, w: World<FS>, s: seq<byte>, pos: nat, r: Reply<FS>)
    requires p.RMDIR? && r == Remove(x, true, w, s, pos)
    ensures Perform(x, p, w, s, pos) == r
  {
  }

  lemma PerformsRename<FS>(x: Export<FS>, p: Proc, w: World<FS>, s: seq<byte>, pos: nat, r: Reply<FS>)
    requires p.RENAME? && r == Nfs.Rename(x, w, s, pos)
    ensures Perform(x, p, w, s, pos) == r
  {
  }

  lemma PerformsLink<FS>(x: Export<FS>, p: Proc, w: World<FS>, s: seq<byte>, pos: nat, r: Reply<FS>)
    requires p.LINK? && r == Nfs.Link(x, w, s, pos)
    ensures Perform(x, p, w, s, pos) == r
  {
  }

  lemma PerformsSymlink<FS>(x: Export<FS>, p: Proc, w: World<FS>, s: seq<byte>, pos: nat, r: Reply<FS>)
    requires p.SYMLINK? && r == Nfs.Symlink(x, w, s, pos)
    ensures Perform(x, p, w, s, pos) == r
  {
  }

  lemma PerformsReaddir<FS>(x: Export<FS>, p: Proc, w: World<FS>, s: seq<byte>, pos: nat, r: Reply<FS>)
    requires p.READDIR? && r == Nfs.List(x, w, s, pos)
    ensures Perform(x, p, w, s, pos) == r
  {
  }

  lemma PerformsStatfs<FS>(x: Export<FS>, p: Proc, w: World<FS>, s: seq<byte>, pos: nat, r: Reply<FS>)
    requires p.STATFS? && r == Nfs.Statfs(x, w, s, pos)
    ensures Perform(x, p, w, s, pos) == r
  {
  }

  lemma PerformsMnt<FS>(x: Export<FS>, p: Proc, w: World<FS>, s: seq<byte>, pos: nat, r: Reply<FS>)
    requires p.MNT? && r == Nfs.Mount(x, w, s, pos)
    ensures Perform(x, p, w, s, pos) == r
  {
  }

  lemma PerformsGetport<FS>(x: Export<FS>, p: Proc, w: World<FS>, s: seq<byte>, pos: nat, r: Reply<FS>)
    requires p.GETPORT? && r == GetPort(x, w, s, pos)
    ensures Perform(x, p, w, s, pos) == r
  {
  }

  lemma PerformsExports<FS>(x: Export<FS>, p: Proc, w: World<FS>, s: seq<byte>, pos: nat, r: Reply<FS>)
    requires p.EXPORTS? && r == Exports(x, w)
    ensures Perform(x, p, w, s, pos) == r
  {
  }

  lemma PerformsMake<FS>(x: Export<FS>, p: Proc, w: World<FS>, s: seq<byte>, pos: nat, dir: bool, r: Reply<FS>)
    requires ((p.CREATE? && !dir) || (p.MKDIR? && dir)) && r == Make(x, dir, w, s, pos)
    ensures Perform(x, p, w, s, pos) == r
  {
  }

  lemma RemoveMeans<FS>(x: Export<FS>, w: World<FS>, s: seq<byte>, i: nat, names: seq<Path>, n: Path, p0: nat, p1: nat, p2: nat)
    requires Interned(x, w, i, names) && Usable(x, names, n)
    requires Reads(s, p0, Xdr.Fixed(Issued(x, w, i)), p1) && Reads(s, p1, Xdr.Opaque(n), p2)
    ensures Perform(x, REMOVE, w, s, p0) == Outcome(w, x.os.unlink(w.fs, Render(x.root, names + [n])))
    ensures Perform(x, RMDIR, w, s, p0) == Outcome(w, x.os.rmdir(w.fs, Render(x.root, names + [n])))
  {
    HandleArg(x, w, s, p0, i, names, p1);
    NameArg(x, s, p1, names, n, p2);
    PerformsRemove(x, REMOVE, w, s, p0, Remove(x, false, w, s, p0));
    PerformsRmdir(x, RMDIR, w, s, p0, Remove(x, true, w, s, p0));
  }

  /** The first handle and name are the old place, the second the new. */
  lemma RenameMeans<FS>(x: Export<FS>, w: World<FS>, s: seq<byte>, i: nat, names: seq<Path>, n: Path, j: nat, names': seq<Path>, n': Path,
                        p0: nat, p1: nat, p2: nat, p3: nat, p4: nat)
    requires Interned(x, w, i, names) && Usable(x, names, n) && Interned(x, w, j, names') && Usable(x, names', n')
    requires Reads(s, p0, Xdr.Fixed(Issued(x, w, i)), p1) && Reads(s, p1, Xdr.Opaque(n), p2)
    requires Reads(s, p2, Xdr.Fixed(Issued(x, w, j)), p3) && Reads(s, p3, Xdr.Opaque(n'), p4)
    ensures Perform(x, RENAME, w, s, p0)
      == Outcome(w, x.os.rename(w.fs, Render(x.root, names + [n]), Render(x.root, names' + [n'])))
  {
    HandleArg(x, w, s, p0, i, names, p1);
    NameArg(x, s, p1, names, n, p2);
    HandleArg(x, w, s, p2, j, names', p3);
    NameArg(x, s, p3, names', n', p4);
    RenameIs(x, w, s, p0, p1, p2, p3, p4, Render(x.root, names), n, Issued(x, w, j), Render(x.root, names'), n');
    PerformsRename(x, RENAME, w, s, p0, Nfs.Rename(x, w, s, p0));
  }

  lemma RenameIs<FS>(x: Export<FS>, w: World<FS>, s: seq<byte>, p0: nat, p1: nat, p2: nat, p3: nat, p4: nat,
                     dir: Path, n: Path, fh: FileHandle, dir': Path, n': Path)
    requires ArgFh(x, w, s, p0) == (w, Some((dir, p1))) && Name(s, p1) == Some((n, p2))
    requires Xdr.GetFixed(s, p2, FHSIZE) == Some((fh, p3)) && Nfs.Resolve(x, w, fh) == (w, Some(dir')) && Name(s, p3) == Some((n', p4))
    requires Join(x, dir, n).Some? && Join(x, dir', n').Some?
    ensures Nfs.Rename(x, w, s, p0) == Outcome(w, x.os.rename(w.fs, Join(x, dir, n).value, Join(x, dir', n').value))
  {
  }

  /** The first handle is the file, the second the directory of the new name. */
  lemma LinkMeans<FS>(x: Export<FS>, w: World<FS>, s: seq<byte>, i: nat, names: seq<Path>, j: nat, names': seq<Path>, n': Path,
                      p0: nat, p1: nat, p2: nat, p3: nat)
    requires Interned(x, w, i, names) && Interned(x, w, j, names') && Usable(x, names', n')
    requires Reads(s, p0, Xdr.Fixed(Issued(x, w, i)), p1)
    requires Reads(s, p1, Xdr.Fixed(Issued(x, w, j)), p2) && Reads(s, p2, Xdr.Opaque(n'), p3)
    ensures Perform(x, LINK, w, s, p0) == Outcome(w, x.os.link(w.fs, Render(x.root, names), Render(x.root, names' + [n'])))
  {
    HandleArg(x, w, s, p0, i, names, p1);
    HandleArg(x, w, s, p1, j, names', p2);
    NameArg(x, s, p2, names', n', p3);
    LinkIs(x, w, s, p0, p1, p2, p3, Render(x.root, names), Issued(x, w, j), Render(x.root, names'), n');
    PerformsLink(x, LINK, w, s, p0, Nfs.Link(x, w, s, p0));
  }

  lemma LinkIs<FS>(x: Export<FS>, w: World<FS>, s: seq<byte>, p0: nat, p1: nat, p2: nat, p3: nat, from: Path, fh: FileHandle, dir': Path, n': Path)
    requires ArgFh(x, w, s, p0) == (w, Some((from, p1)))
    requires Xdr.GetFixed(s, p1, FHSIZE) == Some((fh, p2)) && Nfs.Resolve(x, w, fh) == (w, Some(dir')) && Name(s, p2) == Some((n', p3))
    requires Join(x, dir', n').Some?
    ensures Nfs.Link(x, w, s, p0) == Outcome(w, x.os.link(w.fs, from, Join(x, dir', n').value))
  {
  }

  lemma SymlinkMeans<FS>(x: Export<FS>, w: World<FS>, s: seq<byte>, i: nat, names: seq<Path>, n: Path, target: seq<byte>,
                         p0: nat, p1: nat, p2: nat, p3: nat)
    requires Interned(x, w, i, names) && Usable(x, names, n) && 0 !in target && |target| < 1024
    requires Reads(s, p0, Xdr.Fixed(Issued(x, w, i)), p1) && Reads(s, p1, Xdr.Opaque(n), p2)
    requires Reads(s, p2, Xdr.Opaque(target), p3) && Sattr(s, p3).Some?
    ensures Perform(x, SYMLINK, w, s, p0) == Outcome(w, x.os.symlink(w.fs, target, Render(x.root, names + [n])))
  {
    HandleArg(x, w, s, p0, i, names, p1);
    NameArg(x, s, p1, names, n, p2);
    StringArg(s, p2, target, p3, 1024);
    PerformsSymlink(x, SYMLINK, w, s, p0, Nfs.Symlink(x, w, s, p0));
  }

  /** CREATE and MKDIR make the named child, with the mode of the attributes. */
  lemma MakeMeans<FS>(x: Export<FS>, dir: bool, w: World<FS>, s: seq<byte>, i: nat, names: seq<Path>, n: Path, asked: u32, size: u32,
                      p0: nat, p1: nat, p2: nat)
    requires Interned(x, w, i, names) && Usable(x, names, n)
    requires Reads(s, p0, Xdr.Fixed(Issued(x, w, i)), p1) && Reads(s, p1, Xdr.Opaque(n), p2) && Sattr(s, p2) == Some((asked, size))
    ensures Perform(x, if dir then MKDIR else CREATE, w, s, p0) == Make(x, dir, w, s, p0) == MakeChild(x, dir, w, Render(x.root, names + [n]), asked)
  {
    HandleArg(x, w, s, p0, i, names, p1);
    NameArg(x, s, p1, names, n, p2);
    MakeIs(x, dir, w, s, p0, Render(x.root, names), n, p1, p2, asked, size, Render(x.root, names + [n]));
    PerformsMake(x, if dir then MKDIR else CREATE, w, s, p0, dir, Make(x, dir, w, s, p0));
  }

  lemma MakeIs<FS>(x: Export<FS>, dirMode: bool, w: World<FS>, s: seq<byte>, p0: nat, dir: Path, n: Path, p1: nat, p2: nat, mode: u32, size: u32, child: Path)
    requires ArgFh(x, w, s, p0) == (w, Some((dir, p1))) && Name(s, p1) == Some((n, p2))
    requires Sattr(s, p2) == Some((mode, size)) && Join(x, dir, n) == Some(child)
    ensures Make(x, dirMode, w, s, p0) == MakeChild(x, dirMode, w, child, mode)
  {
  }

  /** Making a child: its kind, a default for an unset mode, and what the reply says. */
  lemma MakeChildMeans<FS>(x: Export<FS>, dir: bool, w: World<FS>, child: Path, asked: u32)
    requires x.root != [] && |w.table.paths| < 0x1_0000_0000
    ensures var mode := Permissions(if asked != UNSET then asked else if dir then 0x1ed else 0x1a4);
      var (fs, r) := if dir then x.os.mkdir(w.fs, child, mode) else x.os.create(w.fs, child, mode);
      var reply := MakeChild(x, dir, w, child, asked);
      if r.Failed? then reply == Just(World(fs, w.table), NfsStatus(r.errno)) else Made(x, w, fs, child, reply)
  {
    var mode := Permissions(if asked != UNSET then asked else if dir then 0x1ed else 0x1a4);
    var (fs, r) := if dir then x.os.mkdir(w.fs, child, mode) else x.os.create(w.fs, child, mode);
    FreshHandleResolves(x.hashes, x.root, x.os.tree(fs), w.table, child);
  }

  /** The reply about an entry just made or found: its attributes, and a handle that resolves to it at once. */
  ghost predicate Made<FS>(x: Export<FS>, w: World<FS>, fs: FS, child: Path, r: Reply<FS>)
    requires x.root != []
  {
    if x.os.lstat(fs, child).Failed? then r == Just(World(fs, w.table), NFSERR_IO)
    else Known(x, World(fs, w.table), child, x.os.lstat(fs, child).value, r)
  }

  ghost predicate Known<FS>(x: Export<FS>, w: World<FS>, child: Path, attrs: Fattr, r: Reply<FS>)
    requires x.root != []
  {
    && r.world == World(w.fs, Intern(w.table, child)) && r.answer.HandleAttrs? && r.answer.attrs == attrs
    && Nfs.Resolve(x, r.world, r.answer.fh) == (r.world, Some(child))
  }

  lemma LookupMeans<FS>(x: Export<FS>, w: World<FS>, s: seq<byte>, i: nat, names: seq<Path>, n: Path, p0: nat, p1: nat, p2: nat)
    requires Interned(x, w, i, names) && Usable(x, names, n)
    requires Reads(s, p0, Xdr.Fixed(Issued(x, w, i)), p1) && Reads(s, p1, Xdr.Opaque(n), p2)
    ensures var child := Render(x.root, names + [n]);
      var r, st := Perform(x, LOOKUP, w, s, p0), x.os.lstat(w.fs, child);
      if st.Failed? then r == Just(w, NfsStatus(st.errno)) else Known(x, w, child, st.value, r)
  {
    HandleArg(x, w, s, p0, i, names, p1);
    NameArg(x, s, p1, names, n, p2);
    FreshHandleResolves(x.hashes, x.root, x.os.tree(w.fs), w.table, Render(x.root, names + [n]));
    PerformsLookup(x, LOOKUP, w, s, p0, Nfs.Lookup(x, w, s, p0));
  }

  lemma SetattrMeans<FS>(x: Export<FS>, w: World<FS>, s: seq<byte>, i: nat, names: seq<Path>, mode: u32, size: u32, p0: nat, p1: nat)
    requires Interned(x, w, i, names) && Reads(s, p0, Xdr.Fixed(Issued(x, w, i)), p1) && Sattr(s, p1) == Some((mode, size))
    ensures var p := Render(x.root, names);
      var fs1 := if mode == UNSET then w.fs else x.os.chmod(w.fs, p, mode % 0x1000);
      var fs2 := if size == UNSET then fs1 else x.os.truncate(fs1, p, size);
      Perform(x, SETATTR, w, s, p0) == Setattr(x, w, s, p0) == Attributes(World(fs2, w.table), x.os.lstat(fs2, p))
  {
    HandleArg(x, w, s, p0, i, names, p1);
    PerformsSetattr(x, SETATTR, w, s, p0, Setattr(x, w, s, p0));
  }

  /** Two systems that treat one path alike, whatever they do with all others. */
  ghost predicate SameAt<FS(!new)>(x: Export<FS>, y: Export<FS>, p: Path) {
    && x.root == y.root && x.hashes == y.hashes
    && (forall fs :: x.os.lstat(fs, p) == y.os.lstat(fs, p))
    && (forall fs, v :: x.os.chmod(fs, p, v) == y.os.chmod(fs, p, v))
    && (forall fs, v :: x.os.truncate(fs, p, v) == y.os.truncate(fs, p, v))
    && (forall fs, v :: x.os.create(fs, p, v) == y.os.create(fs, p, v))
    && (forall fs, v :: x.os.mkdir(fs, p, v) == y.os.mkdir(fs, p, v))
  }

  /** SETATTR looks at and changes the one path its handle stands for. */
  lemma SetattrTouches<FS(!new)>(x: Export<FS>, y: Export<FS>, w: World<FS>, s: seq<byte>, i: nat, names: seq<Path>, mode: u32, size: u32, p0: nat, p1: nat)
    requires Interned(x, w, i, names) && Reads(s, p0, Xdr.Fixed(Issued(x, w, i)), p1) && Sattr(s, p1) == Some((mode, size))
    requires SameAt(x, y, Render(x.root, names))
    ensures Setattr(x, w, s, p0) == Setattr(y, w, s, p0)
  {
    HandleArg(x, w, s, p0, i, names, p1);
    HandleArg(y, w, s, p0, i, names, p1);
  }

  /** CREATE and MKDIR look at and make the one path they name. */
  lemma MakeTouches<FS(!new)>(x: Export<FS>, y: Export<FS>, dir: bool, w: World<FS>, s: seq<byte>, i: nat, names: seq<Path>, n: Path, asked: u32, size: u32,
                              p0: nat, p1: nat, p2: nat)
    requires Interned(x, w, i, names) && Usable(x, names, n)
    requires Reads(s, p0, Xdr.Fixed(Issued(x, w, i)), p1) && Reads(s, p1, Xdr.Opaque(n), p2) && Sattr(s, p2) == Some((asked, size))
    requires SameAt(x, y, Render(x.root, names + [n]))
    ensures Make(x, dir, w, s, p0) == Make(y, dir, w, s, p0)
  {
    MakeMeans(x, dir, w, s, i, names, n, asked, size, p0, p1, p2);
    MakeMeans(y, dir, w, s, i, names, n, asked, size, p0, p1, p2);
  }

  /** The second of the three words before the data is the offset. */
  lemma WriteMeans<FS>(x: Export<FS>, w: World<FS>, s: seq<byte>, i: nat, names: seq<Path>, begin: u32, offset: u32, total: u32, data: seq<byte>,
                       p0: nat, p1: nat, p2: nat, p3: nat, p4: nat, p5: nat)
    requires Interned(x, w, i, names) && Reads(s, p0, Xdr.Fixed(Issued(x, w, i)), p1)
    requires Reads(s, p1, Xdr.U32(begin), p2) && Reads(s, p2, Xdr.U32(offset), p3) && Reads(s, p3, Xdr.U32(total), p4)
    requires Reads(s, p4, Xdr.Opaque(data), p5)
    ensures var (fs, r) := x.os.write(w.fs, Render(x.root, names), offset, data);
      Perform(x, WRITE, w, s, p0) == Attributes(World(fs, w.table), r)
  {
    HandleArg(x, w, s, p0, i, names, p1);
    PerformsWrite(x, WRITE, w, s, p0, Nfs.Write(x, w, s, p0));
  }

  /** READ reports what the file holds at the offset: at most the bytes asked for, and at most 8192. */
  lemma ReadMeans<FS>(x: Export<FS>, w: World<FS>, s: seq<byte>, i: nat, names: seq<Path>, offset: u32, asked: u32, total: u32,
                      p0: nat, p1: nat, p2: nat, p3: nat, p4: nat)
    requires Interned(x, w, i, names) && Reads(s, p0, Xdr.Fixed(Issued(x, w, i)), p1)
    requires Reads(s, p1, Xdr.U32(offset), p2) && Reads(s, p2, Xdr.U32(asked), p3) && Reads(s, p3, Xdr.U32(total), p4)
    ensures var n := if asked > 8192 then 8192 else asked;
      var got, r := x.os.read(w.fs, Render(x.root, names), offset, n), Perform(x, READ, w, s, p0);
      && r.world == w
      && if got.Failed? then r.answer == Status(NfsStatus(got.errno))
         else exists data :: |data| <= n && data <= got.value.1 && (|got.value.1| <= n ==> data == got.value.1)
                             && Says(r.answer, [Xdr.U32(0)] + (Us(got.value.0) + [Xdr.Opaque(data)]))
  {
    HandleArg(x, w, s, p0, i, names, p1);
    assert Three(s, p1) == Some((offset, asked, total));
    ReadPathMeans(x, w, Render(x.root, names), offset, asked);
    PerformsRead(x, READ, w, s, p0, Nfs.Read(x, w, s, p0));
  }

  lemma ReadPathMeans<FS>(x: Export<FS>, w: World<FS>, path: Path, offset: u32, asked: u32)
    ensures var n := if asked > 8192 then 8192 else asked;
      var got, r := x.os.read(w.fs, path, offset, n), ReadPath(x, w, path, offset, asked);
      && r.world == w
      && if got.Failed? then r.answer == Status(NfsStatus(got.errno))
         else exists data :: |data| <= n && data <= got.value.1 && (|got.value.1| <= n ==> data == got.value.1)
                             && Says(r.answer, [Xdr.U32(0)] + (Us(got.value.0) + [Xdr.Opaque(data)]))
  {
    var n := if asked > 8192 then 8192 else asked;
    var got := x.os.read(w.fs, path, offset, n);
    if got.Did? {
      var data := AtMost(got.value.1, n);
      ReadSays(got.value.0, data);
    }
  }

  /** READDIR's reply decodes to the entries of the named directory that the cookie and count select. */
  lemma ReaddirMeans<FS>(x: Export<FS>, w: World<FS>, s: seq<byte>, i: nat, names: seq<Path>, cookie: u32, count: u32, p0: nat, p1: nat, p2: nat, p3: nat)
    requires Interned(x, w, i, names) && Reads(s, p0, Xdr.Fixed(Issued(x, w, i)), p1)
    requires Reads(s, p1, Xdr.U32(cookie), p2) && Reads(s, p2, Xdr.U32(count), p3)
    ensures var got, r := x.os.list(w.fs, Render(x.root, names)), Perform(x, READDIR, w, s, p0);
      if got.Failed? then r == Just(w, NfsStatus(got.errno)) else
      var d, es := got.value, Entries(x, w.fs, Render(x.root, names), got.value.names);
      var (picks, stop) := Readdir.Pick(es, Readdir.Sizes(es), 0, cookie, Readdir.Cap(count), 0);
      && r.world == w && r.answer.Other? && Readdir.HaveNumbers(es, picks)
      && Readdir.Decoded(r.answer.body) == Some((Readdir.Chosen(es, picks), if stop == |es| && !d.failed then 1 else 0))
  {
    HandleArg(x, w, s, p0, i, names, p1);
    assert Two(s, p1) == Some((cookie, count));
    var got := x.os.list(w.fs, Render(x.root, names));
    if got.Did? { Readdir.BodyDecodes(Entries(x, w.fs, Render(x.root, names), got.value.names), got.value.failed, cookie, count); }
    PerformsReaddir(x, READDIR, w, s, p0, Nfs.List(x, w, s, p0));
  }

  /** GETATTR reports the attributes of the path its handle stands for. */
  lemma GetattrMeans<FS>(x: Export<FS>, w: World<FS>, s: seq<byte>, i: nat, names: seq<Path>, p0: nat, p1: nat)
    requires Interned(x, w, i, names) && Reads(s, p0, Xdr.Fixed(Issued(x, w, i)), p1)
    ensures Perform(x, GETATTR, w, s, p0) == Attributes(w, x.os.lstat(w.fs, Render(x.root, names)))
  {
    HandleArg(x, w, s, p0, i, names, p1);
    PerformsGetattr(x, GETATTR, w, s, p0, Getattr(x, w, s, p0));
  }

  /** READLINK reports the target of the link, as far as 1023 bytes go. */
  lemma ReadlinkMeans<FS>(x: Export<FS>, w: World<FS>, s: seq<byte>, i: nat, names: seq<Path>, p0: nat, p1: nat)
    requires Interned(x, w, i, names) && Reads(s, p0, Xdr.Fixed(Issued(x, w, i)), p1)
    ensures var got, r := x.os.readlink(w.fs, Render(x.root, names)), Perform(x, READLINK, w, s, p0);
      && r.world == w
      && if got.Failed? then r.answer == Status(NfsStatus(got.errno))
         else Says(r.answer, [Xdr.U32(0), Xdr.Opaque(if |got.value| <= 1023 then got.value else got.value[..1023])])
  {
    HandleArg(x, w, s, p0, i, names, p1);
    var got := x.os.readlink(w.fs, Render(x.root, names));
    if got.Did? { LinkSays(if |got.value| <= 1023 then got.value else got.value[..1023]); }
    PerformsReadlink(x, READLINK, w, s, p0, Nfs.Readlink(x, w, s, p0));
  }

  /** STATFS reports the transfer size and the four figures of the file system that holds the path. */
  lemma StatfsMeans<FS>(x: Export<FS>, w: World<FS>, s: seq<byte>, i: nat, names: seq<Path>, p0: nat, p1: nat)
    requires Interned(x, w, i, names) && Reads(s, p0, Xdr.Fixed(Issued(x, w, i)), p1)
    ensures var got, r := x.os.statfs(w.fs, Render(x.root, names)), Perform(x, STATFS, w, s, p0);
      && r.world == w
      && if got.Failed? then r.answer == Status(NfsStatus(got.errno))
         else var (size, blocks, free, avail) := got.value;
           Says(r.answer, [Xdr.U32(0), Xdr.U32(8192), Xdr.U32(size), Xdr.U32(blocks), Xdr.U32(free), Xdr.U32(avail)])
  {
    HandleArg(x, w, s, p0, i, names, p1);
    var got := x.os.statfs(w.fs, Render(x.root, names));
    if got.Did? {
      var (size, blocks, free, avail) := got.value;
      StatfsSays(size, blocks, free, avail);
    }
    PerformsStatfs(x, STATFS, w, s, p0, Nfs.Statfs(x, w, s, p0));
  }

  /** MNT gives the handle of the export root, which resolves to it at once, and of no other directory. */
  lemma MountMeans<FS>(x: Export<FS>, w: World<FS>, s: seq<byte>, dir: Path, p0: nat, p1: nat)
    requires GoodRoot(x.root) && |w.table.paths| < 0x1_0000_0000
    requires 0 !in dir && |dir| < 1024 && Reads(s, p0, Xdr.Opaque(dir), p1)
    ensures var r := Perform(x, MNT, w, s, p0);
      if dir != x.root then r == Just(w, 13)
      else if !x.os.isDir(w.fs, x.root) then r == Just(w, 20)
      else r.world == World(w.fs, Intern(w.table, x.root)) && r.answer.NewHandle?
           && Nfs.Resolve(x, r.world, r.answer.fh) == (r.world, Some(x.root))
  {
    StringArg(s, p0, dir, p1, 1024);
    FreshHandleResolves(x.hashes, x.root, x.os.tree(w.fs), w.table, x.root);
    PerformsMnt(x, MNT, w, s, p0, Nfs.Mount(x, w, s, p0));
  }

  /** GETPORT tells the server's port for MOUNT and NFS, whatever version and protocol are asked for, and 0 for any other program. */
  lemma PortMeans<FS>(x: Export<FS>, w: World<FS>, s: seq<byte>, prog: u32, vers: u32, proto: u32, port: u32, p0: nat)
    requires Reads(s, p0, Xdr.U32(prog), p0 + 4) && Reads(s, p0 + 4, Xdr.U32(vers), p0 + 8)
    requires Reads(s, p0 + 8, Xdr.U32(proto), p0 + 12) && Reads(s, p0 + 12, Xdr.U32(port), p0 + 16)
    ensures Perform(x, GETPORT, w, s, p0).world == w
    ensures Says(Perform(x, GETPORT, w, s, p0).answer, [Xdr.U32(if prog in {100003, 100005} then x.port else 0)])
  {
    OneWordSays(if prog in {100003, 100005} then x.port else 0);
    PerformsGetport(x, GETPORT, w, s, p0, GetPort(x, w, s, p0));
  }

  /** The export list: one directory, the root, and no groups. */
  lemma ExportMeans<FS>(x: Export<FS>, w: World<FS>, s: seq<byte>, pos: nat)
    requires GoodRoot(x.root)
    ensures Perform(x, EXPORTS, w, s, pos).world == w && Says(Perform(x, EXPORTS, w, s, pos).answer, [Xdr.U32(1), Xdr.Opaque(x.root), Xdr.U32(0), Xdr.U32(0)])
  {
    var n := |x.root|;
    assert n % 0x1_0000_0000 == n;
    ExportSays(x.root, Xdr.U32Bytes(1), Xdr.U32Bytes(n), Xdr.FixedBytes(x.root), Xdr.U32Bytes(0));
    PerformsExports(x, EXPORTS, w, s, pos, Exports(x, w));
  }

  /** A listed name has a file number, the eleventh attribute of what it names, if that can be examined. */
  lemma EntryMeans<FS>(x: Export<FS>, fs: FS, names: seq<Path>, n: FileName)
    requires GoodRoot(x.root) && AllClean(names) && |Render(x.root, names)| < PATH_MAX
    ensures var e := EntOf(x, fs, Render(x.root, names), n);
      && e.name == n
      && if !Reaches(x, names, n) || x.os.lstat(fs, Render(x.root, Step(names, n))).Failed? then e.ino == None
         else e.ino == Some(x.os.lstat(fs, Render(x.root, Step(names, n))).value[10])
  {
    JoinRefines(x.root, names, n);
  }

  // ---------------------------------------------------------------- calls that are refused

  /** The name leads from the directory to a path the server can name: not empty, without a slash, and not too long; "." and ".." count. */
  predicate Reaches<FS>(x: Export<FS>, names: seq<Path>, n: Path) {
    n != [] && SLASH !in n && |Render(x.root, Step(names, n))| < PATH_MAX
  }

  /** A name that leads nowhere is not found, or may not be made, removed, renamed or linked; nothing is touched. */
  lemma NameRefused<FS>(x: Export<FS>, dir: bool, w: World<FS>, s: seq<byte>, i: nat, names: seq<Path>, n: Path, p0: nat, p1: nat, p2: nat)
    requires Interned(x, w, i, names) && 0 !in n && |n| <= NAMEMAX && !Reaches(x, names, n)
    requires Reads(s, p0, Xdr.Fixed(Issued(x, w, i)), p1) && Reads(s, p1, Xdr.Opaque(n), p2)
    ensures Nfs.Lookup(x, w, s, p0) == Just(w, 2)
    ensures Remove(x, dir, w, s, p0) == Just(w, 13)
    ensures Sattr(s, p2).Some? ==> Make(x, dir, w, s, p0) == Just(w, 13)
    ensures forall t, p3 :: 0 !in t && |t| < 1024 && Reads(s, p2, Xdr.Opaque(t), p3) && Sattr(s, p3).Some? ==> Nfs.Symlink(x, w, s, p0) == Just(w, 13)
  {
    HandleArg(x, w, s, p0, i, names, p1);
    StringArg(s, p1, n, p2, NAMEMAX + 1);
    JoinRefines(x.root, names, n);
    forall t, p3 | 0 !in t && |t| < 1024 && Reads(s, p2, Xdr.Opaque(t), p3) && Sattr(s, p3).Some? ensures Nfs.Symlink(x, w, s, p0) == Just(w, 13) {
      StringArg(s, p2, t, p3, 1024);
    }
  }

  lemma RenameRefused<FS>(x: Export<FS>, w: World<FS>, s: seq<byte>, i: nat, names: seq<Path>, n: Path, j: nat, names': seq<Path>, n': Path,
                          p0: nat, p1: nat, p2: nat, p3: nat, p4: nat)
    requires Interned(x, w, i, names) && Interned(x, w, j, names') && 0 !in n && 0 !in n' && |n| <= NAMEMAX && |n'| <= NAMEMAX
    requires !Reaches(x, names, n) || !Reaches(x, names', n')
    requires Reads(s, p0, Xdr.Fixed(Issued(x, w, i)), p1) && Reads(s, p1, Xdr.Opaque(n), p2)
    requires Reads(s, p2, Xdr.Fixed(Issued(x, w, j)), p3) && Reads(s, p3, Xdr.Opaque(n'), p4)
    ensures Nfs.Rename(x, w, s, p0) == Just(w, 13)
  {
    HandleArg(x, w, s, p0, i, names, p1);
    StringArg(s, p1, n, p2, NAMEMAX + 1);
    HandleArg(x, w, s, p2, j, names', p3);
    StringArg(s, p3, n', p4, NAMEMAX + 1);
    JoinRefines(x.root, names, n);
    JoinRefines(x.root, names', n');
  }

  /** A handle that stands for nothing is stale, in every procedure that takes one. */
  lemma StaleMeans<FS>(x: Export<FS>, p: Proc, w: World<FS>, s: seq<byte>, pos: nat)
    requires Number(p).0 == 100003 && !p.NFSNULL? && ArgFh(x, w, s, pos).1.None?
    ensures Perform(x, p, w, s, pos) == Just(ArgFh(x, w, s, pos).0, 70)
  {
  }

  /** The four procedures that do nothing answer with an empty body. */
  lemma NullMeans<FS>(x: Export<FS>, p: Proc, w: World<FS>, s: seq<byte>, pos: nat)
    requires p in {PMAPNULL, MNTNULL, NFSNULL, UMNT}
    ensures Perform(x, p, w, s, pos) == Reply(w, Other([]))
  {
  }

  // ---------------------------------------------------------------- calls by their numbers

  /** The procedures of NFS version 2 by the numbers of RFC 1094, and whether their replies are remembered. */
  function NfsProcedure(n: u32): Option<(Proc, bool)> {
    match n
    case 0 => Some((NFSNULL, false))
    case 1 => Some((GETATTR, false))
    case 2 => Some((SETATTR, true))
    case 4 => Some((LOOKUP, false))
    case 5 => Some((READLINK, false))
    case 6 => Some((READ, false))
    case 8 => Some((WRITE, true))
    case 9 => Some((CREATE, true))
    case 10 => Some((REMOVE, true))
    case 11 => Some((RENAME, true))
    case 12 => Some((LINK, true))
    case 13 => Some((SYMLINK, true))
    case 14 => Some((MKDIR, true))
    case 15 => Some((RMDIR, true))
    case 16 => Some((READDIR, false))
    case 17 => Some((STATFS, false))
    case _ => None
  }

  /** Port mapper version 2 and MOUNT version 1, by their numbers; nothing of them is remembered. */
  function OtherProcedure(c: Call): Option<(Proc, bool)> {
    match (c.prog, c.vers, c.proc)
    case (100000, 2, 0) => Some((PMAPNULL, false))
    case (100000, 2, 3) => Some((GETPORT, false))
    case (100005, 1, 0) => Some((MNTNULL, false))
    case (100005, 1, 1) => Some((MNT, false))
    case (100005, 1, 3) => Some((UMNT, false))
    case (100005, 1, 5) => Some((EXPORTS, false))
    case _ => None
  }

  function ByNumber(c: Call): Option<(Proc, bool)> {
    if c.prog == 100003 && c.vers == 2 then NfsProcedure(c.proc) else OtherProcedure(c)
  }

  lemma {:induction false} FindProcIs(ps: seq<Proc>, c: Call, p: Proc)
    ensures FindProc(ps, c).Some? ==> Number(FindProc(ps, c).value) == (c.prog, c.vers, c.proc)
    ensures p in ps && Number(p) == (c.prog, c.vers, c.proc) ==> FindProc(ps, c).Some?
    decreases |ps|
  {
    if ps != [] {
      var n := |ps| - 1;
      FindProcIs(ps[..n], c, p);
      assert ps == ps[..n] + [ps[n]];
    }
  }

  lemma EveryProc(p: Proc)
    ensures p in PROCS
  {
    var q := PROCS;
    match p
    case PMAPNULL => assert q[0] == p;
    case GETPORT => assert q[1] == p;
    case MNTNULL => assert q[2] == p;
    case MNT => assert q[3] == p;
    case UMNT => assert q[4] == p;
    case EXPORTS => assert q[5] == p;
    case NFSNULL => assert q[6] == p;
    case GETATTR => assert q[7] == p;
    case SETATTR => assert q[8] == p;
    case LOOKUP => assert q[9] == p;
    case READLINK => assert q[10] == p;
    case READ => assert q[11] == p;
    case WRITE => assert q[12] == p;
    case CREATE => assert q[13] == p;
    case REMOVE => assert q[14] == p;
    case RENAME => assert q[15] == p;
    case LINK => assert q[16] == p;
    case SYMLINK => assert q[17] == p;
    case MKDIR => assert q[18] == p;
    case RMDIR => assert q[19] == p;
    case READDIR => assert q[20] == p;
    case STATFS => assert q[21] == p;
  }

  /** Dispatch goes by the numbers of the standards: every procedure of the table, and no other, is served under its number. */
  lemma NumbersServe<FS>(x: Export<FS>, c: Call, w: World<FS>, s: seq<byte>, pos: nat)
    ensures var found := Rpc.FindRoute(Routes(x), c);
      match ByNumber(c)
      case None => found.None?
      case Some((p, cached)) => found.Some? && found.value.cache == cached && found.value.fn(w, s, pos) == Nfs.Encode(Perform(x, p, w, s, pos))
  {
    Nfs.FindRoute(x, c);
    ByNumberIs(c);
  }

  lemma ByNumberIs(c: Call)
    ensures ByNumber(c) == match FindProc(PROCS, c) case None => None case Some(p) => Some((p, Cached(p)))
  {
    var found := FindProc(PROCS, c);
    FindProcIs(PROCS, c, NFSNULL);
    if found.Some? { Numbered(c, found.value); } else { Unnumbered(c); }
  }

  lemma Numbered(c: Call, p: Proc)
    requires Number(p) == (c.prog, c.vers, c.proc)
    ensures ByNumber(c) == Some((p, Cached(p)))
  {
  }

  lemma Unnumbered(c: Call)
    requires FindProc(PROCS, c).None?
    ensures ByNumber(c).None?
  {
    if ByNumber(c).Some? {
      var p := ByNumber(c).value.0;
      EveryProc(p);
      FindProcIs(PROCS, c, p);
      NumberOf(c, p);
    }
  }

  lemma NumberOf(c: Call, p: Proc)
    requires ByNumber(c).Some? && ByNumber(c).value.0 == p
    ensures Number(p) == (c.prog, c.vers, c.proc)
  {
  }

  /** A call laid out as RFC 1057 has it and not answered before is served under its number, and the reply says what the procedure says. */
  lemma CallServed<FS>(x: Export<FS>, st: State<World<FS>>, d: Datagram, c: Call, flavor: u32, cred: seq<byte>, flavor': u32, verf: seq<byte>,
                       p: nat, q: nat, proc: Proc, cached: bool)
    requires |x.root| < PATH_MAX && CallLaidOut(d.bytes, 0, 2, c, flavor, cred, flavor', verf, p, q)
    requires ByNumber(c) == Some((proc, cached))
    requires forall e :: e in st.stores ==> (e.key.addr, e.key.port, e.key.xid) != (d.addr, d.port, c.xid)
    ensures var (st1, reply) := Rpc.Handle(Routes(x), st, d); var r := Perform(x, proc, st.world, d.bytes, q);
      && st1.world == r.world
      && (reply.None? <==> r.answer.NoReply?)
      && (reply.Some? ==> ReplyLaidOut(reply.value, c.xid, 0) && reply.value[24..] == AnswerBytes(r.answer))
      && (!cached ==> st1.stores == st.stores)
  {
    Rpc.HeaderReads(d.bytes, 0, 2, c, flavor, cred, flavor', verf, p, q);
    NumbersServe(x, c, st.world, d.bytes, q);
    var found := Rpc.FindRoute(Routes(x), c);
    Rpc.SuccessIs(found.value, st.world, d.bytes, q, c.xid);
    EveryReplyFits(x, proc, st.world, d.bytes, q);
    NotRemembered(st.stores, Rpc.KeyOf(d, c), d.asked);
    ServedBy(found, ErrorReply(Routes(x), c), st, d, c, q);
  }

  lemma NotRemembered(stores: seq<Drc.Entry>, key: Drc.Key, now: int)
    requires forall e :: e in stores ==> e.key != key
    ensures Drc.Lookup(stores, key, now).None?
  {
  }

  lemma ServedBy<W>(found: Option<Route<W>>, error: seq<byte>, st: State<W>, d: Datagram, c: Call, pos: nat)
    requires found.Some? && Drc.Lookup(st.stores, Rpc.KeyOf(d, c), d.asked).None?
    ensures var (st1, reply) := Rpc.Dispatch(found, error, st, d, c, pos);
      && (st1.world, reply) == Rpc.Execute(found.value, st.world, d.bytes, pos, c.xid)
      && (!found.value.cache ==> st1.stores == st.stores)
  {
  }

  // ---------------------------------------------------------------- an export that moves below itself

  function MountCall(root: Path): seq<byte>
    requires |root| < PATH_MAX
  {
    Xdr.OpaqueBytes(root)
  }

  function LookupCall(fh: FileHandle, n: Path): seq<byte>
    requires |n| <= NAMEMAX
  {
    Xdr.FixedBytes(fh) + Xdr.OpaqueBytes(n)
  }

  lemma LookupCallReads(fh: FileHandle, n: Path)
    requires |n| <= NAMEMAX
    ensures Reads(LookupCall(fh, n), 0, Xdr.Fixed(fh), 32) && Reads(LookupCall(fh, n), 32, Xdr.Opaque(n), |LookupCall(fh, n)|)
  {
    var s := LookupCall(fh, n);
    assert s[0..32] == Xdr.FixedBytes(fh) && s[32..|s|] == Xdr.OpaqueBytes(n);
    Xdr.FixedReadsBack(fh, s, 0);
    Xdr.OpaqueReadsBack(n, s, 32);
  }

  /** MNT of the export root, on a server that has just started. */
  lemma MountStep<FS>(x: Export<FS>, fs: FS)
    requires GoodRoot(x.root) && 0 !in x.root && x.os.isDir(fs, x.root)
    ensures var w := World(fs, Table([x.root], false));
      Nfs.Mount(x, World(fs, Table([], false)), MountCall(x.root), 0) == Reply(w, NewHandle(Issued(x, w, 0)))
  {
    var s := MountCall(x.root);
    assert s[0..|s|] == s;
    Xdr.OpaqueReadsBack(x.root, s, 0);
    StringArg(s, 0, x.root, |s|, 1024);
    assert [] + [x.root] == [x.root];
  }

  /** LOOKUP of an entry not yet in the table: it gets the next slot and that slot's handle. */
  lemma LookupStep<FS>(x: Export<FS>, w: World<FS>, i: nat, names: seq<Path>, n: Path)
    requires Interned(x, w, i, names) && Usable(x, names, n)
    requires var child := Render(x.root, names + [n]); child !in w.table.paths && x.os.lstat(w.fs, child).Did?
    ensures var child := Render(x.root, names + [n]);
      var w1 := World(w.fs, Table(w.table.paths + [child], w.table.rebuilt));
      Nfs.Lookup(x, w, LookupCall(Issued(x, w, i), n), 0)
      == Reply(w1, HandleAttrs(Issued(x, w1, |w.table.paths|), x.os.lstat(w.fs, child).value))
  {
    var s := LookupCall(Issued(x, w, i), n);
    LookupCallReads(Issued(x, w, i), n);
    HandleArg(x, w, s, 0, i, names, 32);
    NameArg(x, s, 32, names, n, |s|);
    NotIndexed(w.table.paths, Render(x.root, names + [n]));
  }

  lemma NotIndexed(paths: seq<Path>, p: Path)
    requires p !in paths
    ensures IndexOf(paths, p) == |paths|
  {
    assert forall k :: 0 <= k < |paths| ==> paths[k] in paths;
  }

  /** A server that has just started is asked to mount its root, to look up `first` there, and then `second` there or below `first`. */
  function ThreeCalls<FS>(x: Export<FS>, fs: FS, first: Path, second: Path, below: bool): (World<FS>, Option<FileHandle>)
    requires |x.root| < PATH_MAX && |first| <= NAMEMAX && |second| <= NAMEMAX
  {
    AfterMount(x, Nfs.Mount(x, World(fs, Table([], false)), MountCall(x.root), 0), first, second, below)
  }

  function AfterMount<FS>(x: Export<FS>, r: Reply<FS>, first: Path, second: Path, below: bool): (World<FS>, Option<FileHandle>)
    requires |first| <= NAMEMAX && |second| <= NAMEMAX
  {
    if !r.answer.NewHandle? then (r.world, None)
    else AfterLookup(x, r.answer.fh, Nfs.Lookup(x, r.world, LookupCall(r.answer.fh, first), 0), second, below)
  }

  function AfterLookup<FS>(x: Export<FS>, root: FileHandle, r: Reply<FS>, second: Path, below: bool): (World<FS>, Option<FileHandle>)
    requires |second| <= NAMEMAX
  {
    if !r.answer.HandleAttrs? then (r.world, None)
    else Handed(Nfs.Lookup(x, r.world, LookupCall(if below then r.answer.fh else root, second), 0))
  }

  function Handed<FS>(r: Reply<FS>): (World<FS>, Option<FileHandle>) {
    (r.world, if r.answer.HandleAttrs? then Some(r.answer.fh) else None)
  }

  /** An entry that can be named and examined. */
  predicate There<FS>(x: Export<FS>, fs: FS, names: seq<Path>, n: Path) {
    AllClean(names) && Usable(x, names, n) && x.os.lstat(fs, Render(x.root, names + [n])).Did?
  }

  lemma ThreeCallsGive<FS>(x: Export<FS>, fs: FS, first: Path, second: Path, below: bool)
    requires GoodRoot(x.root) && 0 !in x.root && x.os.isDir(fs, x.root)
    requires There(x, fs, [], first) && There(x, fs, if below then [first] else [], second) && (below || first != second)
    ensures var last := Below(if below then Below(x.root, first) else x.root, second);
      var w := World(fs, Table([x.root, Below(x.root, first), last], false));
      ThreeCalls(x, fs, first, second, below) == (w, Some(Issued(x, w, 2)))
  {
    MountStep(x, fs);
    FirstLookup(x, fs, first, second, below);
  }

  lemma FirstLookup<FS>(x: Export<FS>, fs: FS, first: Path, second: Path, below: bool)
    requires GoodRoot(x.root)
    requires There(x, fs, [], first) && There(x, fs, if below then [first] else [], second) && (below || first != second)
    ensures var last := Below(if below then Below(x.root, first) else x.root, second);
      var w0, w := World(fs, Table([x.root], false)), World(fs, Table([x.root, Below(x.root, first), last], false));
      AfterMount(x, Reply(w0, NewHandle(Issued(x, w0, 0))), first, second, below) == (w, Some(Issued(x, w, 2)))
  {
    var root, mid := x.root, Below(x.root, first);
    RenderOne(root, first);
    var w0, w1 := World(fs, Table([root], false)), World(fs, Table([root, mid], false));
    assert [] + [first] == [first] && [root] + [mid] == [root, mid];
    LookupStep(x, w0, 0, [], first);
    SecondLookup(x, w1, first, second, below);
    assert Issued(x, w0, 0) == Issued(x, w1, 0);
    SecondAnswer(x, Issued(x, w1, 0), w1, x.os.lstat(fs, mid).value, second, below);
  }

  lemma SecondAnswer<FS>(x: Export<FS>, root: FileHandle, w: World<FS>, attrs: Fattr, second: Path, below: bool)
    requires |w.table.paths| == 2 && root == Issued(x, w, 0) && |second| <= NAMEMAX
    ensures AfterLookup(x, root, Reply(w, HandleAttrs(Issued(x, w, 1), attrs)), second, below)
      == Handed(Nfs.Lookup(x, w, LookupCall(Issued(x, w, if below then 1 else 0), second), 0))
  {
  }

  lemma SecondLookup<FS>(x: Export<FS>, w: World<FS>, first: Path, second: Path, below: bool)
    requires GoodRoot(x.root) && w.table == Table([x.root, Below(x.root, first)], false)
    requires There(x, w.fs, [], first) && There(x, w.fs, if below then [first] else [], second) && (below || first != second)
    ensures var last := Below(if below then Below(x.root, first) else x.root, second);
      var w1 := World(w.fs, Table([x.root, Below(x.root, first), last], false));
      Handed(Nfs.Lookup(x, w, LookupCall(Issued(x, w, if below then 1 else 0), second), 0)) == (w1, Some(Issued(x, w1, 2)))
  {
    var root, mid := x.root, Below(x.root, first);
    RenderOne(root, first);
    RenderTwo(root, first, second);
    RenderOne(root, second);
    BelowDiffer(root, first, second);
    assert [] + [first] == [first] && [] + [second] == [second] && [first] + [second] == [first, second];
    LookupStep(x, w, if below then 1 else 0, if below then [first] else [], second);
    var last := Below(if below then mid else root, second);
    assert [root, mid] + [last] == [root, mid, last];
  }

  lemma RenderOne(root: Path, n: Path)
    ensures Render(root, [n]) == Below(root, n) && Render(root, []) == root
  {
    assert [n][..0] == [];
  }

  /**
    The failure of `NestedRootMisresolves` in two runs: a server for a directory is asked
    for it, for its entry m and for the entry c of that; the handle for m/c, kept over a
    restart with m as the export, after m, its entry z and its entry c have been asked
    for, stands for c and not for m/c.
  */
  lemma NestedRootHappens<FS>(x: Export<FS>, y: Export<FS>, fs: FS, m: Path, c: Path, z: Path)
    requires GoodRoot(x.root) && 0 !in x.root && y.root == Below(x.root, m) && y.hashes == x.hashes
    requires x.os.isDir(fs, x.root) && There(x, fs, [], m) && There(x, fs, [m], c)
    requires y.os.isDir(fs, y.root) && There(y, fs, [], z) && There(y, fs, [], c) && c != z
    ensures var old_, new_ := ThreeCalls(x, fs, m, c, true), ThreeCalls(y, fs, z, c, false);
      && old_.1.Some? && new_.1.Some?
      && Nfs.Resolve(x, old_.0, old_.1.value) == (old_.0, Some(Render(x.root, [m, c])))
      && Nfs.Resolve(y, new_.0, old_.1.value) == (new_.0, Some(Render(y.root, [c])))
      && Render(y.root, [c]) != Render(y.root, [m, c])
  {
    RenderOne(x.root, m);
    assert [] + [m] == [m];
    RootBelow(x.root, m);
    ThreeCallsGive(x, fs, m, c, true);
    ThreeCallsGive(y, fs, z, c, false);
    RenderTwo(x.root, m, c);
    RenderTwo(y.root, m, c);
    RenderOne(y.root, c);
    var w, v := ThreeCalls(x, fs, m, c, true).0, ThreeCalls(y, fs, z, c, false).0;
    ThirdSlot(x, w, x, w);
    ThirdSlot(x, w, y, v);
  }

  lemma RootBelow(root: Path, m: Path)
    requires Clean(m) && 0 !in root && 0 !in m && |Below(root, m)| < PATH_MAX
    ensures GoodRoot(Below(root, m)) && 0 !in Below(root, m)
  {
    assert m[|m| - 1] in m;
  }

  lemma ThirdSlot<FS>(x: Export<FS>, w: World<FS>, y: Export<FS>, v: World<FS>)
    requires y.hashes == x.hashes && y.root != [] && |w.table.paths| == |v.table.paths| == 3
    requires v.table.paths[2] == w.table.paths[2]
    ensures Nfs.Resolve(y, v, Issued(x, w, 2)) == (v, Some(v.table.paths[2]))
  {
    HandleWords(x.hashes, x.root, w.table.paths[2], 2);
    IndexHits(y.hashes, y.root, y.os.tree(v.fs), v.table, Issued(x, w, 2), w.table.paths[2], 2);
  }
}
