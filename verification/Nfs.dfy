/**
  The route table of the server and its procedures: port mapper, MOUNT and NFS v2
  (RFC 1094). The operating system is a record of functions over an abstract file-system
  state `FS`; a procedure reads its arguments from the datagram and gives the new state
  and the reply body, or no body when it drops the call.
*/
module Nfs {
  import opened Bytes
  import opened Paths
  import opened Handles
  import Xdr
  import Rpc
  import Drc
  import Readdir

  const NFS_OK: u32 := 0
  const NFSERR_NOENT: u32 := 2
  const NFSERR_IO: u32 := 5
  const NFSERR_ACCES: u32 := 13
  const NFSERR_NOTDIR: u32 := 20
  const NFSERR_STALE: u32 := 70
  const NAMEMAX := 255
  const READ_MAX := 8192
  const LINK_MAX := 1023
  const BODY_MAX := 8268
  const UNSET: u32 := 0xffff_ffff

  datatype Errno = EPERM | ENOENT | EACCES | EEXIST | ENOTDIR | EISDIR | ENOSPC | ENAMETOOLONG | ENOTEMPTY | EOTHER

  function NfsStatus(e: Errno): u32 {
    match e
    case EPERM => 1
    case ENOENT => NFSERR_NOENT
    case EACCES => NFSERR_ACCES
    case EEXIST => 17
    case ENOTDIR => NFSERR_NOTDIR
    case EISDIR => 21
    case ENOSPC => 28
    case ENAMETOOLONG => 63
    case ENOTEMPTY => 66
    case EOTHER => NFSERR_IO
  }

  datatype Sys<+T> = Did(value: T) | Failed(errno: Errno)

  /** The seventeen words of a file's attributes. */
  type Fattr = a: seq<u32> | |a| == 17 witness seq(17, _ => 0)

  /** The place of the file number among them. */
  const FILEID := 10

  /** What opening and reading a directory gives: names in order, and whether reading ended in an error. */
  datatype Directory = Directory(names: seq<FileName>, failed: bool)

  type FileName = n: Path | |n| <= NAMEMAX
  type Folder = d: Directory | |d.names| < 0x1_0000_0000 witness Directory([], false)

  type FileHandle = f: seq<byte> | |f| == FHSIZE witness seq(FHSIZE, _ => 0)

  datatype Os<!FS> = Os(
    tree: FS -> Listing,
    isDir: (FS, Path) -> bool,
    lstat: (FS, Path) -> Sys<Fattr>,
    chmod: (FS, Path, u32) -> FS,
    truncate: (FS, Path, u32) -> FS,
    write: (FS, Path, u32, seq<byte>) -> (FS, Sys<Fattr>),
    create: (FS, Path, u32) -> (FS, Sys<()>),
    mkdir: (FS, Path, u32) -> (FS, Sys<()>),
    unlink: (FS, Path) -> (FS, Sys<()>),
    rmdir: (FS, Path) -> (FS, Sys<()>),
    rename: (FS, Path, Path) -> (FS, Sys<()>),
    link: (FS, Path, Path) -> (FS, Sys<()>),
    symlink: (FS, seq<byte>, Path) -> (FS, Sys<()>),
    read: (FS, Path, u32, u32) -> Sys<(Fattr, seq<byte>)>,
    readlink: (FS, Path) -> Sys<seq<byte>>,
    list: (FS, Path) -> Sys<Folder>,
    statfs: (FS, Path) -> Sys<(u32, u32, u32, u32)>)

  datatype Export<!FS> = Export(os: Os<FS>, hashes: Hashes, root: Path, port: u32)
  datatype World<FS> = World(fs: FS, table: Table)

  /** What goes into the reply body. */
  datatype Answer =
    | NoReply
    | Status(status: u32)
    | Attrs(attrs: Fattr)
    | NewHandle(fh: FileHandle)
    | HandleAttrs(fh: FileHandle, attrs: Fattr)
    | Other(body: seq<byte>)

  datatype Reply<FS> = Reply(world: World<FS>, answer: Answer)

  // ---------------------------------------------------------------- reply bodies

  function Words(ws: seq<u32>): (s: seq<byte>)
    ensures |s| == 4 * |ws|
  {
    if ws == [] then [] else Xdr.U32Bytes(ws[0]) + Words(ws[1..])
  }

  function AnswerBytes(a: Answer): seq<byte> {
    match a
    case NoReply => []
    case Status(status) => Xdr.U32Bytes(status)
    case Attrs(attrs) => Xdr.U32Bytes(NFS_OK) + Words(attrs)
    case NewHandle(fh) => Xdr.U32Bytes(NFS_OK) + Xdr.FixedBytes(fh)
    case HandleAttrs(fh, attrs) => Xdr.U32Bytes(NFS_OK) + Xdr.FixedBytes(fh) + Words(attrs)
    case Other(body) => body
  }

  function Encode<FS>(r: Reply<FS>): Rpc.Handled<World<FS>> {
    Rpc.Handled(r.world, if r.answer.NoReply? then None else Some(AnswerBytes(r.answer)))
  }

  function Just<FS>(w: World<FS>, status: u32): Reply<FS> { Reply(w, Status(status)) }

  function Drop<FS>(w: World<FS>): Reply<FS> { Reply(w, NoReply) }

  /** Status, then attributes when the call succeeded. */
  function Attributes<FS>(w: World<FS>, r: Sys<Fattr>): Reply<FS> {
    match r case Failed(e) => Just(w, NfsStatus(e)) case Did(a) => Reply(w, Attrs(a))
  }

  function Outcome<FS>(w: World<FS>, r: (FS, Sys<()>)): Reply<FS> {
    Just(World(r.0, w.table), if r.1.Failed? then NfsStatus(r.1.errno) else NFS_OK)
  }

  // ---------------------------------------------------------------- arguments

  /** A handle argument resolved; looking one up may extend the table. */
  function Resolve<FS>(x: Export<FS>, w: World<FS>, fh: FileHandle): (r: (World<FS>, Option<Path>))
    ensures r.0.fs == w.fs
  {
    if x.root == [] then (w, None)
    else
      var (t, p) := ToPath(x.hashes, x.root, x.os.tree(w.fs), w.table, fh);
      (World(w.fs, t), p)
  }

  function ArgFh<FS>(x: Export<FS>, w: World<FS>, s: seq<byte>, pos: nat): (r: (World<FS>, Option<(Path, nat)>))
    ensures r.0.fs == w.fs
  {
    match Xdr.GetFixed(s, pos, FHSIZE)
    case None => (w, None)
    case Some((fh, q)) =>
      var (w1, p) := Resolve(x, w, fh);
      (w1, match p case None => None case Some(path) => Some((path, q)))
  }

  /** The eight words of a settable-attributes argument: mode and size are used. */
  function Sattr(s: seq<byte>, pos: nat): Option<(u32, u32)> {
    var (mode, p1) :- Xdr.GetU32(s, pos);
    var (_, p2) :- Xdr.GetU32(s, p1);
    var (_, p3) :- Xdr.GetU32(s, p2);
    var (size, p4) :- Xdr.GetU32(s, p3);
    var (_, p5) :- Xdr.GetU32(s, p4);
    var (_, p6) :- Xdr.GetU32(s, p5);
    var (_, p7) :- Xdr.GetU32(s, p6);
    var (_, p8) :- Xdr.GetU32(s, p7);
    Some((mode, size))
  }

  function Name(s: seq<byte>, pos: nat): Option<(Path, nat)> { Xdr.GetString(s, pos, NAMEMAX + 1) }

  function Join<FS>(x: Export<FS>, dir: Path, name: Path): Option<Path> { JoinChild(x.root, dir, name, PATH_MAX) }

  function Permissions(mode: u32): u32 { mode % 0x1000 }

  // ---------------------------------------------------------------- procedures

  function Mount<FS>(x: Export<FS>, w: World<FS>, s: seq<byte>, pos: nat): (r: Reply<FS>)
    ensures r.answer.NoReply? ==> r.world.fs == w.fs
  {
    match Xdr.GetString(s, pos, 1024)
    case None => Drop(w)
    case Some((dir, _)) =>
      if dir != x.root then Just(w, NFSERR_ACCES)
      else if !x.os.isDir(w.fs, x.root) then Just(w, NFSERR_NOTDIR)
      else
        MountRoot(x, w)
  }

  function MountRoot<FS>(x: Export<FS>, w: World<FS>): Reply<FS> {
    var (t, fh) := FromPath(x.hashes, x.root, w.table, x.root);
    Reply(World(w.fs, t), NewHandle(fh))
  }

  function Getattr<FS>(x: Export<FS>, w: World<FS>, s: seq<byte>, pos: nat): (r: Reply<FS>)
    ensures r.answer.NoReply? ==> r.world.fs == w.fs
  {
    var (w1, arg) := ArgFh(x, w, s, pos);
    if arg.None? then Just(w1, NFSERR_STALE) else Attributes(w1, x.os.lstat(w1.fs, arg.value.0))
  }

  function Lookup<FS>(x: Export<FS>, w: World<FS>, s: seq<byte>, pos: nat): (r: Reply<FS>)
    ensures r.answer.NoReply? ==> r.world.fs == w.fs
  {
    var (w1, arg) := ArgFh(x, w, s, pos);
    if arg.None? then Just(w1, NFSERR_STALE) else
    var name := Name(s, arg.value.1);
    if name.None? then Drop(w1) else
    var child := Join(x, arg.value.0, name.value.0);
    if child.None? then Just(w1, NFSERR_NOENT) else
    var st := x.os.lstat(w1.fs, child.value);
    if st.Failed? then Just(w1, NfsStatus(st.errno)) else
    var (t, fh) := FromPath(x.hashes, x.root, w1.table, child.value);
    Reply(World(w1.fs, t), HandleAttrs(fh, st.value))
  }

  function Setattr<FS>(x: Export<FS>, w: World<FS>, s: seq<byte>, pos: nat): (r: Reply<FS>)
    ensures r.answer.NoReply? ==> r.world.fs == w.fs
    ensures !r.answer.Other?
  {
    var (w1, arg) := ArgFh(x, w, s, pos);
    if arg.None? then Just(w1, NFSERR_STALE) else
    var (path, q) := arg.value;
    match Sattr(s, q)
    case None => Drop(w1)
    case Some((mode, size)) => SetMode(x, w1, path, mode, size)
  }

  function SetMode<FS>(x: Export<FS>, w: World<FS>, path: Path, mode: u32, size: u32): (r: Reply<FS>)
    ensures !r.answer.NoReply? && !r.answer.Other?
  {
    var fs1 := if mode != UNSET then x.os.chmod(w.fs, path, Permissions(mode)) else w.fs;
    var fs2 := if size != UNSET then x.os.truncate(fs1, path, size) else fs1;
    Attributes(World(fs2, w.table), x.os.lstat(fs2, path))
  }

  function Write<FS>(x: Export<FS>, w: World<FS>, s: seq<byte>, pos: nat): (r: Reply<FS>)
    ensures r.answer.NoReply? ==> r.world.fs == w.fs
    ensures !r.answer.Other?
  {
    var (w1, arg) := ArgFh(x, w, s, pos);
    if arg.None? then Just(w1, NFSERR_STALE) else
    var (path, q) := arg.value;
    match WriteArgs(s, q)
    case None => Drop(w1)
    case Some((offset, data)) =>
      var (fs1, r) := x.os.write(w1.fs, path, offset, data);
      Attributes(World(fs1, w1.table), r)
  }

  function WriteArgs(s: seq<byte>, pos: nat): Option<(u32, seq<byte>)> {
    var (_, p1) :- Xdr.GetU32(s, pos);
    var (offset, p2) :- Xdr.GetU32(s, p1);
    var (_, p3) :- Xdr.GetU32(s, p2);
    var (data, _) :- Xdr.GetBytes(s, p3);
    Some((offset, data))
  }

  /** CREATE and MKDIR. */
  function Make<FS>(x: Export<FS>, dirMode: bool, w: World<FS>, s: seq<byte>, pos: nat): (r: Reply<FS>)
    ensures r.answer.NoReply? ==> r.world.fs == w.fs
    ensures !r.answer.Other?
  {
    var (w1, arg) := ArgFh(x, w, s, pos);
    if arg.None? then Just(w1, NFSERR_STALE) else
    var name := Name(s, arg.value.1);
    if name.None? then Drop(w1) else
    var sattr := Sattr(s, name.value.1);
    if sattr.None? then Drop(w1) else
    var child := Join(x, arg.value.0, name.value.0);
    if child.None? then Just(w1, NFSERR_ACCES) else
    MakeChild(x, dirMode, w1, child.value, sattr.value.0)
  }

  function MakeChild<FS>(x: Export<FS>, dirMode: bool, w: World<FS>, child: Path, asked: u32): (r: Reply<FS>)
    ensures !r.answer.NoReply? && !r.answer.Other?
  {
    var mode := if asked == UNSET then (if dirMode then 0x1ed else 0x1a4) else asked;
    var (fs1, r) := if dirMode then x.os.mkdir(w.fs, child, Permissions(mode)) else x.os.create(w.fs, child, Permissions(mode));
    if r.Failed? then Just(World(fs1, w.table), NfsStatus(r.errno)) else
    var st := x.os.lstat(fs1, child);
    if st.Failed? then Just(World(fs1, w.table), NFSERR_IO) else
    var (t, fh) := FromPath(x.hashes, x.root, w.table, child);
    Reply(World(fs1, t), HandleAttrs(fh, st.value))
  }

  /** REMOVE and RMDIR. */
  function Remove<FS>(x: Export<FS>, isDir: bool, w: World<FS>, s: seq<byte>, pos: nat): (r: Reply<FS>)
    ensures r.answer.NoReply? ==> r.world.fs == w.fs
    ensures !r.answer.Other?
  {
    var (w1, arg) := ArgFh(x, w, s, pos);
    if arg.None? then Just(w1, NFSERR_STALE) else
    var name := Name(s, arg.value.1);
    if name.None? then Drop(w1) else
    var child := Join(x, arg.value.0, name.value.0);
    if child.None? then Just(w1, NFSERR_ACCES) else
    Outcome(w1, if isDir then x.os.rmdir(w1.fs, child.value) else x.os.unlink(w1.fs, child.value))
  }

  function Rename<FS>(x: Export<FS>, w: World<FS>, s: seq<byte>, pos: nat): (r: Reply<FS>)
    ensures r.answer.NoReply? ==> r.world.fs == w.fs
    ensures !r.answer.Other?
  {
    var (w1, from) := ArgFh(x, w, s, pos);
    if from.None? then Just(w1, NFSERR_STALE) else
    var fname := Name(s, from.value.1);
    if fname.None? then Drop(w1) else
    var fh := Xdr.GetFixed(s, fname.value.1, FHSIZE);
    if fh.None? then Drop(w1) else
    RenameTo(x, w1, Join(x, from.value.0, fname.value.0), fh.value.0, s, fh.value.1)
  }

  /** The second half of RENAME: where the entry goes. */
  function RenameTo<FS>(x: Export<FS>, w: World<FS>, fpath: Option<Path>, fh: FileHandle, s: seq<byte>, pos: nat): (r: Reply<FS>)
    ensures r.answer.NoReply? ==> r.world.fs == w.fs
    ensures !r.answer.Other?
  {
    var (w2, todir) := Resolve(x, w, fh);
    if todir.None? then Just(w2, NFSERR_STALE) else
    var tname := Name(s, pos);
    if tname.None? then Drop(w2) else
    var tpath := Join(x, todir.value, tname.value.0);
    if fpath.None? || tpath.None? then Just(w2, NFSERR_ACCES) else
    Outcome(w2, x.os.rename(w2.fs, fpath.value, tpath.value))
  }

  function Link<FS>(x: Export<FS>, w: World<FS>, s: seq<byte>, pos: nat): (r: Reply<FS>)
    ensures r.answer.NoReply? ==> r.world.fs == w.fs
    ensures !r.answer.Other?
  {
    var (w1, from) := ArgFh(x, w, s, pos);
    if from.None? then Just(w1, NFSERR_STALE) else
    var fh := Xdr.GetFixed(s, from.value.1, FHSIZE);
    if fh.None? then Drop(w1) else
    LinkTo(x, w1, from.value.0, fh.value.0, s, fh.value.1)
  }

  /** The second half of LINK: the new name. */
  function LinkTo<FS>(x: Export<FS>, w: World<FS>, from: Path, fh: FileHandle, s: seq<byte>, pos: nat): (r: Reply<FS>)
    ensures r.answer.NoReply? ==> r.world.fs == w.fs
    ensures !r.answer.Other?
  {
    var (w2, todir) := Resolve(x, w, fh);
    if todir.None? then Just(w2, NFSERR_STALE) else
    var tname := Name(s, pos);
    if tname.None? then Drop(w2) else
    var tpath := Join(x, todir.value, tname.value.0);
    if tpath.None? then Just(w2, NFSERR_ACCES) else
    Outcome(w2, x.os.link(w2.fs, from, tpath.value))
  }

  function Symlink<FS>(x: Export<FS>, w: World<FS>, s: seq<byte>, pos: nat): (r: Reply<FS>)
    ensures r.answer.NoReply? ==> r.world.fs == w.fs
    ensures !r.answer.Other?
  {
    var (w1, arg) := ArgFh(x, w, s, pos);
    if arg.None? then Just(w1, NFSERR_STALE) else
    var name := Name(s, arg.value.1);
    if name.None? then Drop(w1) else
    var target := Xdr.GetString(s, name.value.1, 1024);
    if target.None? then Drop(w1) else
    if Sattr(s, target.value.1).None? then Drop(w1) else
    var child := Join(x, arg.value.0, name.value.0);
    if child.None? then Just(w1, NFSERR_ACCES) else
    Outcome(w1, x.os.symlink(w1.fs, target.value.0, child.value))
  }

  // Procedures that change nothing but, through their handle argument, the table.

  function GetPort<FS>(x: Export<FS>, w: World<FS>, s: seq<byte>, pos: nat): Reply<FS> {
    match Xdr.GetU32(s, pos)
    case None => Drop(w)
    case Some((prog, _)) =>
      if pos + 16 > |s| then Drop(w)
      else Reply(w, Other(Xdr.U32Bytes(if prog == MOUNT_PROG || prog == NFS_PROG then x.port else 0)))
  }

  /** The export list: one directory, no groups. */
  function Exports<FS>(x: Export<FS>, w: World<FS>): Reply<FS> {
    Reply(w, Other(Xdr.U32Bytes(1) + Xdr.U32Bytes(|x.root| % 0x1_0000_0000) + Xdr.FixedBytes(x.root) + Xdr.U32Bytes(0) + Xdr.U32Bytes(0)))
  }

  /** As much of `data` as was asked for. */
  function AtMost(data: seq<byte>, n: nat): (r: seq<byte>)
    ensures |r| <= n && r <= data
  {
    if |data| > n then data[..n] else data
  }

  function Three(s: seq<byte>, pos: nat): Option<(u32, u32, u32)> {
    var (a, p1) :- Xdr.GetU32(s, pos);
    var (b, p2) :- Xdr.GetU32(s, p1);
    var (c, p3) :- Xdr.GetU32(s, p2);
    Some((a, b, c))
  }

  function Read<FS>(x: Export<FS>, w: World<FS>, s: seq<byte>, pos: nat): (r: Reply<FS>)
    ensures r.world.fs == w.fs
  {
    var (w1, arg) := ArgFh(x, w, s, pos);
    if arg.None? then Just(w1, NFSERR_STALE) else
    match Three(s, arg.value.1)
    case None => Drop(w1)
    case Some((offset, asked, _)) => ReadPath(x, w1, arg.value.0, offset, asked)
  }

  function ReadPath<FS>(x: Export<FS>, w: World<FS>, path: Path, offset: u32, asked: u32): (r: Reply<FS>)
    ensures r.world == w && !r.answer.NoReply?
  {
    var count := if asked > READ_MAX then READ_MAX else asked;
    match x.os.read(w.fs, path, offset, count)
    case Failed(e) => Just(w, NfsStatus(e))
    case Did(r) => Reply(w, Other(ReadBody(r.0, AtMost(r.1, count))))
  }

  function ReadBody(attrs: Fattr, data: seq<byte>): seq<byte>
    requires |data| <= READ_MAX
  {
    Xdr.U32Bytes(NFS_OK) + Words(attrs) + Xdr.OpaqueBytes(data)
  }

  function Readlink<FS>(x: Export<FS>, w: World<FS>, s: seq<byte>, pos: nat): (r: Reply<FS>)
    ensures r.world.fs == w.fs
  {
    var (w1, arg) := ArgFh(x, w, s, pos);
    if arg.None? then Just(w1, NFSERR_STALE) else
    match x.os.readlink(w1.fs, arg.value.0)
    case Failed(e) => Just(w1, NfsStatus(e))
    case Did(target) => Reply(w1, Other(LinkBody(AtMost(target, LINK_MAX))))
  }

  function LinkBody(target: seq<byte>): seq<byte>
    requires |target| <= LINK_MAX
  {
    Xdr.U32Bytes(NFS_OK) + Xdr.OpaqueBytes(target)
  }

  /** A listed name: it has a file number when it can be joined and examined. */
  function EntOf<FS>(x: Export<FS>, fs: FS, dir: Path, name: FileName): (e: Readdir.Ent)
    ensures e.name == name
  {
    var child := Join(x, dir, name);
    if child.None? then Readdir.Ent(name, None)
    else match x.os.lstat(fs, child.value)
      case Failed(_) => Readdir.Ent(name, None)
      case Did(attrs) => Readdir.Ent(name, Some(attrs[FILEID]))
  }

  function Entries<FS>(x: Export<FS>, fs: FS, dir: Path, names: seq<FileName>): (es: seq<Readdir.Ent>)
    ensures |es| == |names| && forall i :: 0 <= i < |es| ==> es[i] == EntOf(x, fs, dir, names[i])
    ensures Readdir.Nameable(es)
  {
    seq(|names|, i requires 0 <= i < |names| => EntOf(x, fs, dir, names[i]))
  }

  function Two(s: seq<byte>, pos: nat): Option<(u32, u32)> {
    var (a, p1) :- Xdr.GetU32(s, pos);
    var (b, p2) :- Xdr.GetU32(s, p1);
    Some((a, b))
  }

  /** READDIR. */
  function List<FS>(x: Export<FS>, w: World<FS>, s: seq<byte>, pos: nat): (r: Reply<FS>)
    ensures r.world.fs == w.fs
  {
    var (w1, arg) := ArgFh(x, w, s, pos);
    if arg.None? then Just(w1, NFSERR_STALE) else
    match Two(s, arg.value.1)
    case None => Drop(w1)
    case Some((cookie, count)) => ListPath(x, w1, arg.value.0, cookie, count)
  }

  function ListPath<FS>(x: Export<FS>, w: World<FS>, dir: Path, cookie: u32, count: u32): (r: Reply<FS>)
    ensures r.world == w && !r.answer.NoReply?
  {
    match x.os.list(w.fs, dir)
    case Failed(e) => Just(w, NfsStatus(e))
    case Did(d) => Reply(w, Other(Readdir.ReplyBody(Entries(x, w.fs, dir, d.names), d.failed, cookie, count)))
  }

  function Statfs<FS>(x: Export<FS>, w: World<FS>, s: seq<byte>, pos: nat): (r: Reply<FS>)
    ensures r.world.fs == w.fs
  {
    var (w1, arg) := ArgFh(x, w, s, pos);
    if arg.None? then Just(w1, NFSERR_STALE) else
    match x.os.statfs(w1.fs, arg.value.0)
    case Failed(e) => Just(w1, NfsStatus(e))
    case Did((size, blocks, free, avail)) => Reply(w1, Other(Xdr.U32Bytes(NFS_OK) + Words([READ_MAX, size, blocks, free, avail])))
  }

  // ---------------------------------------------------------------- routes

  const PMAP_PROG: u32 := 100000
  const MOUNT_PROG: u32 := 100005
  const NFS_PROG: u32 := 100003

  datatype Proc =
    | PMAPNULL | GETPORT
    | MNTNULL | MNT | UMNT | EXPORTS
    | NFSNULL | GETATTR | SETATTR | LOOKUP | READLINK | READ | WRITE | CREATE | REMOVE
    | RENAME | LINK | SYMLINK | MKDIR | RMDIR | READDIR | STATFS

  /** The non-idempotent procedures. */
  predicate Cached(p: Proc) {
    p.SETATTR? || p.WRITE? || p.CREATE? || p.REMOVE? || p.RENAME? || p.LINK? || p.SYMLINK? || p.MKDIR? || p.RMDIR?
  }

  /** The procedures that change files. */
  function Change<FS>(x: Export<FS>, p: Proc, w: World<FS>, s: seq<byte>, pos: nat): (r: Reply<FS>)
    requires Cached(p)
    ensures r.answer.NoReply? ==> r.world.fs == w.fs
    ensures !r.answer.Other?
  {
    match p
    case SETATTR => Setattr(x, w, s, pos)
    case WRITE => Write(x, w, s, pos)
    case CREATE => Make(x, false, w, s, pos)
    case REMOVE => Remove(x, false, w, s, pos)
    case RENAME => Rename(x, w, s, pos)
    case LINK => Link(x, w, s, pos)
    case SYMLINK => Symlink(x, w, s, pos)
    case MKDIR => Make(x, true, w, s, pos)
    case RMDIR => Remove(x, true, w, s, pos)
  }

  /** The procedures that report. */
  function Report<FS>(x: Export<FS>, p: Proc, w: World<FS>, s: seq<byte>, pos: nat): (r: Reply<FS>)
    requires !Cached(p)
    ensures r.answer.NoReply? ==> r.world.fs == w.fs
  {
    match p
    case MNT => Mount(x, w, s, pos)
    case GETATTR => Getattr(x, w, s, pos)
    case LOOKUP => Lookup(x, w, s, pos)
    case READLINK => Readlink(x, w, s, pos)
    case READ => Read(x, w, s, pos)
    case READDIR => List(x, w, s, pos)
    case STATFS => Statfs(x, w, s, pos)
    case GETPORT => GetPort(x, w, s, pos)
    case EXPORTS => Exports(x, w)
    case PMAPNULL | MNTNULL | NFSNULL | UMNT => Reply(w, Other([]))
  }

  function Perform<FS>(x: Export<FS>, p: Proc, w: World<FS>, s: seq<byte>, pos: nat): (r: Reply<FS>)
    ensures r.answer.NoReply? ==> r.world.fs == w.fs
    ensures Cached(p) ==> !r.answer.Other?
  {
    if Cached(p) then Change(x, p, w, s, pos) else Report(x, p, w, s, pos)
  }

  function Number(p: Proc): (u32, u32, u32) {
    match p
    case PMAPNULL => (PMAP_PROG, 2, 0)
    case GETPORT => (PMAP_PROG, 2, 3)
    case MNTNULL => (MOUNT_PROG, 1, 0)
    case MNT => (MOUNT_PROG, 1, 1)
    case UMNT => (MOUNT_PROG, 1, 3)
    case EXPORTS => (MOUNT_PROG, 1, 5)
    case NFSNULL => (NFS_PROG, 2, 0)
    case GETATTR => (NFS_PROG, 2, 1)
    case SETATTR => (NFS_PROG, 2, 2)
    case LOOKUP => (NFS_PROG, 2, 4)
    case READLINK => (NFS_PROG, 2, 5)
    case READ => (NFS_PROG, 2, 6)
    case WRITE => (NFS_PROG, 2, 8)
    case CREATE => (NFS_PROG, 2, 9)
    case REMOVE => (NFS_PROG, 2, 10)
    case RENAME => (NFS_PROG, 2, 11)
    case LINK => (NFS_PROG, 2, 12)
    case SYMLINK => (NFS_PROG, 2, 13)
    case MKDIR => (NFS_PROG, 2, 14)
    case RMDIR => (NFS_PROG, 2, 15)
    case READDIR => (NFS_PROG, 2, 16)
    case STATFS => (NFS_PROG, 2, 17)
  }

  function RouteOf<FS>(x: Export<FS>, p: Proc): Rpc.Route<World<FS>> {
    var (prog, vers, proc) := Number(p);
    Rpc.Route(prog, vers, proc, (w, s, pos) => Encode(Perform(x, p, w, s, pos)), Cached(p))
  }

  const PROCS: seq<Proc> := [
    PMAPNULL, GETPORT, MNTNULL, MNT, UMNT, EXPORTS, NFSNULL, GETATTR, SETATTR, LOOKUP, READLINK, READ, WRITE,
    CREATE, REMOVE, RENAME, LINK, SYMLINK, MKDIR, RMDIR, READDIR, STATFS]

  function Routes<FS>(x: Export<FS>): (rs: seq<Rpc.Route<World<FS>>>)
    ensures |rs| == |PROCS| && forall i :: 0 <= i < |rs| ==> rs[i] == RouteOf(x, PROCS[i])
  {
    seq(|PROCS|, i requires 0 <= i < |PROCS| => RouteOf(x, PROCS[i]))
  }

  // ---------------------------------------------------------------- replies fit the cache

  /** Every non-idempotent procedure drops the call with the file system untouched, or replies in at most 104 bytes. */
  lemma CachedRepliesAreSmall<FS>(x: Export<FS>, p: Proc, w: World<FS>, s: seq<byte>, pos: nat)
    requires Cached(p)
    ensures var r := Perform(x, p, w, s, pos);
      && (r.answer.NoReply? ==> r.world.fs == w.fs)
      && |AnswerBytes(r.answer)| <= 104
  {
    AnswerSize(Perform(x, p, w, s, pos).answer);
  }

  lemma AnswerSize(a: Answer)
    requires !a.Other?
    ensures |AnswerBytes(a)| <= 104
  {
  }

  lemma ListFits(es: seq<Readdir.Ent>, failed: bool, cookie: u32, count: u32)
    requires Readdir.Nameable(es)
    ensures |Readdir.ReplyBody(es, failed, cookie, count)| <= 12 + Readdir.RD_MAXDATA
  {
    Readdir.EncodingsSized(es);
    Readdir.PickFits(es, Readdir.Encodings(es), Readdir.Sizes(es), 0, cookie, Readdir.Cap(count), 0);
  }

  lemma ListPathFits<FS>(x: Export<FS>, w: World<FS>, dir: Path, cookie: u32, count: u32)
    ensures |AnswerBytes(ListPath(x, w, dir, cookie, count).answer)| <= BODY_MAX
  {
    var d := x.os.list(w.fs, dir);
    if d.Did? { ListFits(Entries(x, w.fs, dir, d.value.names), d.value.failed, cookie, count); }
  }

  lemma BodiesFit(attrs: Fattr, data: seq<byte>)
    ensures |data| <= READ_MAX ==> |ReadBody(attrs, data)| <= BODY_MAX
    ensures |data| <= LINK_MAX ==> |LinkBody(data)| <= BODY_MAX
  {
  }

  lemma ReadlinkFits<FS>(x: Export<FS>, w: World<FS>, s: seq<byte>, pos: nat)
    ensures |AnswerBytes(Readlink(x, w, s, pos).answer)| <= BODY_MAX
  {
    var (w1, arg) := ArgFh(x, w, s, pos);
    if arg.Some? {
      var r := x.os.readlink(w1.fs, arg.value.0);
      if r.Did? { BodiesFit(seq(17, _ => 0), AtMost(r.value, LINK_MAX)); }
    }
  }

  lemma ListCallFits<FS>(x: Export<FS>, w: World<FS>, s: seq<byte>, pos: nat)
    ensures |AnswerBytes(List(x, w, s, pos).answer)| <= BODY_MAX
  {
    var (w1, arg) := ArgFh(x, w, s, pos);
    if arg.Some? && Two(s, arg.value.1).Some? {
      var (cookie, count) := Two(s, arg.value.1).value;
      ListPathFits(x, w1, arg.value.0, cookie, count);
    }
  }

  lemma ReportFits<FS>(x: Export<FS>, p: Proc, w: World<FS>, s: seq<byte>, pos: nat)
    requires !Cached(p) && |x.root| < PATH_MAX
    ensures |AnswerBytes(Report(x, p, w, s, pos).answer)| <= BODY_MAX
  {
    match p
    case READ => ReadFits(x, w, s, pos);
    case READLINK => ReadlinkFits(x, w, s, pos);
    case READDIR => ListCallFits(x, w, s, pos);
    case MNT => AnswerSize(Mount(x, w, s, pos).answer);
    case GETATTR => AnswerSize(Getattr(x, w, s, pos).answer);
    case LOOKUP => AnswerSize(Lookup(x, w, s, pos).answer);
    case _ =>
  }

  lemma ReadPathFits<FS>(x: Export<FS>, w: World<FS>, path: Path, offset: u32, asked: u32)
    ensures |AnswerBytes(ReadPath(x, w, path, offset, asked).answer)| <= BODY_MAX
  {
    var count := if asked > READ_MAX then READ_MAX else asked;
    var r := x.os.read(w.fs, path, offset, count);
    if r.Did? { BodiesFit(r.value.0, AtMost(r.value.1, count)); }
  }

  lemma ReadFits<FS>(x: Export<FS>, w: World<FS>, s: seq<byte>, pos: nat)
    ensures |AnswerBytes(Read(x, w, s, pos).answer)| <= BODY_MAX
  {
    var (w1, arg) := ArgFh(x, w, s, pos);
    if arg.Some? && Three(s, arg.value.1).Some? {
      var (offset, asked, _) := Three(s, arg.value.1).value;
      ReadPathFits(x, w1, arg.value.0, offset, asked);
    }
  }

  /** Every reply fits a datagram, so the only calls without a reply are the ones a procedure drops. */
  lemma EveryReplyFits<FS>(x: Export<FS>, p: Proc, w: World<FS>, s: seq<byte>, pos: nat)
    requires |x.root| < PATH_MAX
    ensures |AnswerBytes(Perform(x, p, w, s, pos).answer)| <= BODY_MAX
  {
    if Cached(p) {
      AnswerSize(Perform(x, p, w, s, pos).answer);
    } else {
      ReportFits(x, p, w, s, pos);
    }
  }

  function FindProc(ps: seq<Proc>, c: Rpc.Call): (p: Option<Proc>)
    ensures p.Some? ==> p.value in ps
  {
    if ps == [] then None
    else if Number(ps[|ps| - 1]) == (c.prog, c.vers, c.proc) then Some(ps[|ps| - 1])
    else FindProc(ps[..|ps| - 1], c)
  }

  lemma MatchIs<FS>(x: Export<FS>, p: Proc, c: Rpc.Call)
    ensures Rpc.Matches(RouteOf(x, p), c) <==> Number(p) == (c.prog, c.vers, c.proc)
  {
  }

  lemma {:induction false} FindRouteIs<FS>(x: Export<FS>, c: Rpc.Call, rs: seq<Rpc.Route<World<FS>>>, ps: seq<Proc>)
    requires |rs| == |ps| && forall i {:trigger ps[i]} :: 0 <= i < |rs| ==> rs[i] == RouteOf(x, ps[i])
    ensures Rpc.FindRoute(rs, c) == match FindProc(ps, c) case None => None case Some(p) => Some(RouteOf(x, p))
    decreases |rs|
  {
    if rs != [] {
      var n := |rs| - 1;
      LastRoute(x, c, rs, ps, n);
      FindRouteIs(x, c, rs[..n], ps[..n]);
    }
  }

  lemma LastRoute<FS>(x: Export<FS>, c: Rpc.Call, rs: seq<Rpc.Route<World<FS>>>, ps: seq<Proc>, n: nat)
    requires |rs| == |ps| == n + 1 && rs[n] == RouteOf(x, ps[n])
    ensures Rpc.FindRoute(rs, c) == if Rpc.Matches(rs[n], c) then Some(RouteOf(x, ps[n])) else Rpc.FindRoute(rs[..n], c)
    ensures FindProc(ps, c) == if Rpc.Matches(rs[n], c) then Some(ps[n]) else FindProc(ps[..n], c)
  {
    MatchIs(x, ps[n], c);
  }

  lemma FindRoute<FS>(x: Export<FS>, c: Rpc.Call)
    ensures Rpc.FindRoute(Routes(x), c) == match FindProc(PROCS, c) case None => None case Some(p) => Some(RouteOf(x, p))
  {
    FindRouteIs(x, c, Routes(x), PROCS);
  }

  /** A cached call that runs either leaves the file system as it was, with no reply, or has its reply stored. */
  lemma CachedCallIsStored<FS>(x: Export<FS>, s: Rpc.State<World<FS>>, ds: seq<Rpc.Datagram>, i: nat)
    requires i < |ds| && Rpc.CachedCall(Routes(x), ds[i]).Some? && !Rpc.Replayed(Routes(x), s, ds, i)
    ensures || Rpc.Stored(Routes(x), s, ds, i)
            || (Rpc.ReplyTo(Routes(x), s, ds, i).None?
                && Rpc.Run(Routes(x), s, ds[..i + 1]).world.fs == Rpc.Run(Routes(x), s, ds[..i]).world.fs)
    ensures Rpc.ReplyTo(Routes(x), s, ds, i).Some? ==> |Rpc.ReplyTo(Routes(x), s, ds, i).value| <= 128
  {
    var (c, pos) := Rpc.ParseCall(ds[i].bytes).value;
    FindRoute(x, c);
    var p := FindProc(PROCS, c).value;
    CachedRepliesAreSmall(x, p, Rpc.Run(Routes(x), s, ds[..i]).world, ds[i].bytes, pos);
    Rpc.RunSnoc(Routes(x), s, ds, i);
  }

  /**
    At most once, for the NFS procedures as they are: of two datagrams with the same
    sender and transaction at most 30 seconds and 255 stored replies apart, the second
    either finds that the first was dropped without touching the file system, or gets the
    first one's reply byte for byte and changes nothing.
  */
  lemma NfsAtMostOnce<FS>(x: Export<FS>, w: World<FS>, ds: seq<Rpc.Datagram>, i: nat, j: nat)
    requires Rpc.Clock(ds) && i < j < |ds|
    requires Rpc.CachedCall(Routes(x), ds[i]).Some? && Rpc.CachedCall(Routes(x), ds[j]).Some?
    requires Rpc.SameTransaction(ds[i], ds[j])
    requires var s := Rpc.State(w, []);
      && !Rpc.Replayed(Routes(x), s, ds, i)
      && ds[j].asked - ds[i].stored <= 30
      && Rpc.Stores(Routes(x), s, ds, j) - Rpc.Stores(Routes(x), s, ds, i) <= 256
    ensures var s := Rpc.State(w, []);
      || (Rpc.ReplyTo(Routes(x), s, ds, i).None?
          && Rpc.Run(Routes(x), s, ds[..i + 1]).world.fs == Rpc.Run(Routes(x), s, ds[..i]).world.fs)
      || (Rpc.ReplyTo(Routes(x), s, ds, j) == Rpc.ReplyTo(Routes(x), s, ds, i)
          && Rpc.Run(Routes(x), s, ds[..j + 1]) == Rpc.Run(Routes(x), s, ds[..j]))
  {
    var s := Rpc.State(w, []);
    CachedCallIsStored(x, s, ds, i);
    if Rpc.Stored(Routes(x), s, ds, i) {
      Rpc.RepeatIsReplayed(Routes(x), s, ds, i, j);
    }
  }

  // ---------------------------------------------------------------- the server stays inside the export

  ghost predicate GoodExport<FS(!new)>(x: Export<FS>) {
    GoodRoot(x.root) && forall fs :: WellNamed(x.os.tree(fs))
  }

  /** Two systems that cannot be told apart by looking at, or changing, paths inside the export. */
  ghost predicate SameInside<FS(!new)>(x: Export<FS>, y: Export<FS>) {
    && x.root == y.root && x.hashes == y.hashes && x.port == y.port
    && (forall fs :: x.os.tree(fs) == y.os.tree(fs))
    && (forall fs, p :: Inside(x.root, p) ==> x.os.isDir(fs, p) == y.os.isDir(fs, p))
    && (forall fs, p :: Inside(x.root, p) ==> x.os.lstat(fs, p) == y.os.lstat(fs, p))
    && (forall fs, p, m :: Inside(x.root, p) ==> x.os.chmod(fs, p, m) == y.os.chmod(fs, p, m))
    && (forall fs, p, n :: Inside(x.root, p) ==> x.os.truncate(fs, p, n) == y.os.truncate(fs, p, n))
    && (forall fs, p, o, d :: Inside(x.root, p) ==> x.os.write(fs, p, o, d) == y.os.write(fs, p, o, d))
    && (forall fs, p, m :: Inside(x.root, p) ==> x.os.create(fs, p, m) == y.os.create(fs, p, m))
    && (forall fs, p, m :: Inside(x.root, p) ==> x.os.mkdir(fs, p, m) == y.os.mkdir(fs, p, m))
    && (forall fs, p :: Inside(x.root, p) ==> x.os.unlink(fs, p) == y.os.unlink(fs, p))
    && (forall fs, p :: Inside(x.root, p) ==> x.os.rmdir(fs, p) == y.os.rmdir(fs, p))
    && (forall fs, p, q :: Inside(x.root, p) && Inside(x.root, q) ==> x.os.rename(fs, p, q) == y.os.rename(fs, p, q))
    && (forall fs, p, q :: Inside(x.root, p) && Inside(x.root, q) ==> x.os.link(fs, p, q) == y.os.link(fs, p, q))
    && (forall fs, t, p :: Inside(x.root, p) ==> x.os.symlink(fs, t, p) == y.os.symlink(fs, t, p))
    && (forall fs, p, o, n :: Inside(x.root, p) ==> x.os.read(fs, p, o, n) == y.os.read(fs, p, o, n))
    && (forall fs, p :: Inside(x.root, p) ==> x.os.readlink(fs, p) == y.os.readlink(fs, p))
    && (forall fs, p :: Inside(x.root, p) ==> x.os.list(fs, p) == y.os.list(fs, p))
    && (forall fs, p :: Inside(x.root, p) ==> x.os.statfs(fs, p) == y.os.statfs(fs, p))
  }

  lemma ToPathConfined(h: Hashes, root: Path, tree: Listing, t: Table, fh: seq<byte>)
    requires GoodRoot(root) && WellNamed(tree) && Confined(root, t) && |fh| == FHSIZE
    ensures var (t1, p) := ToPath(h, root, tree, t, fh);
      Confined(root, t1) && (p.Some? ==> Inside(root, p.value) && |p.value| < PATH_MAX)
  {
    RebuildConfined(root, tree, t);
    var (t1, p) := ToPath(h, root, tree, t, fh);
    assert p.Some? ==> p.value in t1.paths;
  }

  lemma ResolveConfined<FS(!new)>(x: Export<FS>, w: World<FS>, fh: seq<byte>)
    requires GoodExport(x) && Confined(x.root, w.table) && |fh| == FHSIZE
    ensures var (w1, p) := Resolve(x, w, fh);
      w1.fs == w.fs && Confined(x.root, w1.table) && (p.Some? ==> Inside(x.root, p.value) && |p.value| < PATH_MAX)
  {
    ToPathConfined(x.hashes, x.root, x.os.tree(w.fs), w.table, fh);
  }

  lemma ArgConfined<FS(!new)>(x: Export<FS>, w: World<FS>, s: seq<byte>, pos: nat)
    requires GoodExport(x) && Confined(x.root, w.table)
    ensures var (w1, a) := ArgFh(x, w, s, pos);
      w1.fs == w.fs && Confined(x.root, w1.table) && (a.Some? ==> Inside(x.root, a.value.0) && |a.value.0| < PATH_MAX)
  {
    var fh := Xdr.GetFixed(s, pos, FHSIZE);
    if fh.Some? { ResolveConfined(x, w, fh.value.0); }
  }

  lemma FromPathConfined(h: Hashes, root: Path, t: Table, p: Path)
    requires Confined(root, t) && Inside(root, p) && |p| < PATH_MAX
    ensures Confined(root, FromPath(h, root, t, p).0)
  {
  }

  lemma JoinConfined<FS>(x: Export<FS>, dir: Path, name: Path)
    requires GoodRoot(x.root) && Inside(x.root, dir) && |dir| < PATH_MAX
    ensures var c := Join(x, dir, name); c.Some? ==> Inside(x.root, c.value) && |c.value| < PATH_MAX
  {
    JoinInside(x.root, dir, name);
  }

  /** The same reply and new state under both systems, with the handle table inside the export. */
  ghost predicate Same<FS>(x: Export<FS>, a: Reply<FS>, b: Reply<FS>) {
    a == b && Confined(x.root, a.world.table)
  }

  ghost predicate Alike<FS(!new)>(x: Export<FS>, y: Export<FS>, w: World<FS>) {
    GoodExport(x) && SameInside(x, y) && Confined(x.root, w.table)
  }

  lemma MountSame<FS(!new)>(x: Export<FS>, y: Export<FS>, w: World<FS>, s: seq<byte>, pos: nat)
    requires Alike(x, y, w)
    ensures Same(x, Mount(x, w, s, pos), Mount(y, w, s, pos))
  {
    RootConfined(x.hashes, x.root, w.table);
  }

  lemma RootConfined(h: Hashes, root: Path, t: Table)
    requires GoodRoot(root) && Confined(root, t)
    ensures Inside(root, root) && Confined(root, FromPath(h, root, t, root).0)
  {
    assert AllClean([]) && root == Render(root, []);
    FromPathConfined(h, root, t, root);
  }

  lemma ArgSame<FS(!new)>(x: Export<FS>, y: Export<FS>, w: World<FS>, s: seq<byte>, pos: nat)
    requires Alike(x, y, w)
    ensures ArgFh(x, w, s, pos) == ArgFh(y, w, s, pos)
    ensures var (w1, a) := ArgFh(x, w, s, pos);
      w1.fs == w.fs && Confined(x.root, w1.table) && (a.Some? ==> Inside(x.root, a.value.0) && |a.value.0| < PATH_MAX)
  {
    ArgConfined(x, w, s, pos);
  }

  lemma GetattrSame<FS(!new)>(x: Export<FS>, y: Export<FS>, w: World<FS>, s: seq<byte>, pos: nat)
    requires Alike(x, y, w)
    ensures Same(x, Getattr(x, w, s, pos), Getattr(y, w, s, pos))
  {
    ArgSame(x, y, w, s, pos);
  }

  lemma SetModeSame<FS(!new)>(x: Export<FS>, y: Export<FS>, w: World<FS>, path: Path, mode: u32, size: u32)
    requires Alike(x, y, w) && Inside(x.root, path)
    ensures Same(x, SetMode(x, w, path, mode, size), SetMode(y, w, path, mode, size))
  {
  }

  lemma SetattrSame<FS(!new)>(x: Export<FS>, y: Export<FS>, w: World<FS>, s: seq<byte>, pos: nat)
    requires Alike(x, y, w)
    ensures Same(x, Setattr(x, w, s, pos), Setattr(y, w, s, pos))
  {
    ArgSame(x, y, w, s, pos);
    var (w1, a) := ArgFh(x, w, s, pos);
    if a.Some? && Sattr(s, a.value.1).Some? {
      var (mode, size) := Sattr(s, a.value.1).value;
      SetModeSame(x, y, w1, a.value.0, mode, size);
    }
  }

  lemma WriteSame<FS(!new)>(x: Export<FS>, y: Export<FS>, w: World<FS>, s: seq<byte>, pos: nat)
    requires Alike(x, y, w)
    ensures Same(x, Write(x, w, s, pos), Write(y, w, s, pos))
  {
    ArgSame(x, y, w, s, pos);
  }

  lemma JoinSame<FS(!new)>(x: Export<FS>, y: Export<FS>, t: Table, dir: Path, name: Path)
    requires GoodRoot(x.root) && x.root == y.root && Confined(x.root, t) && Inside(x.root, dir) && |dir| < PATH_MAX
    ensures Join(x, dir, name) == Join(y, dir, name)
    ensures var c := Join(x, dir, name); c.Some? ==> Inside(x.root, c.value) && Confined(x.root, FromPath(x.hashes, x.root, t, c.value).0)
  {
    JoinConfined(x, dir, name);
    var c := Join(x, dir, name);
    if c.Some? { FromPathConfined(x.hashes, x.root, t, c.value); }
  }

  /** The child named by a directory handle and a name is the same under both systems and inside the export. */
  lemma ChildSame<FS(!new)>(x: Export<FS>, y: Export<FS>, w: World<FS>, s: seq<byte>, pos: nat)
    requires Alike(x, y, w)
    ensures ArgFh(x, w, s, pos) == ArgFh(y, w, s, pos)
    ensures var (w1, a) := ArgFh(x, w, s, pos);
      && w1.fs == w.fs && Confined(x.root, w1.table)
      && (a.Some? && Name(s, a.value.1).Some? ==>
          var c := Join(x, a.value.0, Name(s, a.value.1).value.0);
          && c == Join(y, a.value.0, Name(s, a.value.1).value.0)
          && (c.Some? ==> Inside(x.root, c.value) && Confined(x.root, FromPath(x.hashes, x.root, w1.table, c.value).0)))
  {
    ArgSame(x, y, w, s, pos);
    var (w1, a) := ArgFh(x, w, s, pos);
    if a.Some? && Name(s, a.value.1).Some? { JoinSame(x, y, w1.table, a.value.0, Name(s, a.value.1).value.0); }
  }

  lemma LookupSame<FS(!new)>(x: Export<FS>, y: Export<FS>, w: World<FS>, s: seq<byte>, pos: nat)
    requires Alike(x, y, w)
    ensures Same(x, Lookup(x, w, s, pos), Lookup(y, w, s, pos))
  {
    ChildSame(x, y, w, s, pos);
  }

  lemma MakeChildSame<FS(!new)>(x: Export<FS>, y: Export<FS>, dirMode: bool, w: World<FS>, child: Path, asked: u32)
    requires Alike(x, y, w) && Inside(x.root, child) && Confined(x.root, FromPath(x.hashes, x.root, w.table, child).0)
    ensures Same(x, MakeChild(x, dirMode, w, child, asked), MakeChild(y, dirMode, w, child, asked))
  {
  }

  lemma MakeSame<FS(!new)>(x: Export<FS>, y: Export<FS>, dirMode: bool, w: World<FS>, s: seq<byte>, pos: nat)
    requires Alike(x, y, w)
    ensures Same(x, Make(x, dirMode, w, s, pos), Make(y, dirMode, w, s, pos))
  {
    ChildSame(x, y, w, s, pos);
    var (w1, a) := ArgFh(x, w, s, pos);
    if a.Some? && Name(s, a.value.1).Some? {
      var sattr := Sattr(s, Name(s, a.value.1).value.1);
      var c := Join(x, a.value.0, Name(s, a.value.1).value.0);
      if sattr.Some? && c.Some? { MakeChildSame(x, y, dirMode, w1, c.value, sattr.value.0); }
    }
  }

  lemma RemoveSame<FS(!new)>(x: Export<FS>, y: Export<FS>, isDir: bool, w: World<FS>, s: seq<byte>, pos: nat)
    requires Alike(x, y, w)
    ensures Same(x, Remove(x, isDir, w, s, pos), Remove(y, isDir, w, s, pos))
  {
    ChildSame(x, y, w, s, pos);
  }

  lemma SymlinkSame<FS(!new)>(x: Export<FS>, y: Export<FS>, w: World<FS>, s: seq<byte>, pos: nat)
    requires Alike(x, y, w)
    ensures Same(x, Symlink(x, w, s, pos), Symlink(y, w, s, pos))
  {
    ChildSame(x, y, w, s, pos);
  }

  /** The second directory handle of RENAME and LINK. */
  lemma TargetSame<FS(!new)>(x: Export<FS>, y: Export<FS>, w: World<FS>, fh: seq<byte>)
    requires Alike(x, y, w) && |fh| == FHSIZE
    ensures Resolve(x, w, fh) == Resolve(y, w, fh)
    ensures var (w1, p) := Resolve(x, w, fh);
      w1.fs == w.fs && Confined(x.root, w1.table) && (p.Some? ==> Inside(x.root, p.value) && |p.value| < PATH_MAX)
  {
    ResolveConfined(x, w, fh);
  }

  lemma TargetChildSame<FS(!new)>(x: Export<FS>, y: Export<FS>, w: World<FS>, fh: seq<byte>, s: seq<byte>, pos: nat)
    requires Alike(x, y, w) && |fh| == FHSIZE
    ensures Resolve(x, w, fh) == Resolve(y, w, fh)
    ensures var (w1, p) := Resolve(x, w, fh);
      && w1.fs == w.fs && Confined(x.root, w1.table)
      && (p.Some? && Name(s, pos).Some? ==>
          var c := Join(x, p.value, Name(s, pos).value.0);
          c == Join(y, p.value, Name(s, pos).value.0) && (c.Some? ==> Inside(x.root, c.value)))
  {
    TargetSame(x, y, w, fh);
    var (w1, p) := Resolve(x, w, fh);
    if p.Some? && Name(s, pos).Some? { JoinSame(x, y, w1.table, p.value, Name(s, pos).value.0); }
  }

  lemma RenameToSame<FS(!new)>(x: Export<FS>, y: Export<FS>, w: World<FS>, fpath: Option<Path>, fh: FileHandle, s: seq<byte>, pos: nat)
    requires Alike(x, y, w) && (fpath.Some? ==> Inside(x.root, fpath.value))
    ensures Same(x, RenameTo(x, w, fpath, fh, s, pos), RenameTo(y, w, fpath, fh, s, pos))
  {
    TargetChildSame(x, y, w, fh, s, pos);
  }

  lemma RenameSame<FS(!new)>(x: Export<FS>, y: Export<FS>, w: World<FS>, s: seq<byte>, pos: nat)
    requires Alike(x, y, w)
    ensures Same(x, Rename(x, w, s, pos), Rename(y, w, s, pos))
  {
    ChildSame(x, y, w, s, pos);
    var (w1, from) := ArgFh(x, w, s, pos);
    if from.Some? && Name(s, from.value.1).Some? {
      var fname := Name(s, from.value.1).value;
      var fh := Xdr.GetFixed(s, fname.1, FHSIZE);
      if fh.Some? { RenameToSame(x, y, w1, Join(x, from.value.0, fname.0), fh.value.0, s, fh.value.1); }
    }
  }

  lemma LinkToSame<FS(!new)>(x: Export<FS>, y: Export<FS>, w: World<FS>, from: Path, fh: FileHandle, s: seq<byte>, pos: nat)
    requires Alike(x, y, w) && Inside(x.root, from)
    ensures Same(x, LinkTo(x, w, from, fh, s, pos), LinkTo(y, w, from, fh, s, pos))
  {
    TargetChildSame(x, y, w, fh, s, pos);
  }

  lemma LinkSame<FS(!new)>(x: Export<FS>, y: Export<FS>, w: World<FS>, s: seq<byte>, pos: nat)
    requires Alike(x, y, w)
    ensures Same(x, Link(x, w, s, pos), Link(y, w, s, pos))
  {
    ArgSame(x, y, w, s, pos);
    var (w1, from) := ArgFh(x, w, s, pos);
    if from.Some? {
      var fh := Xdr.GetFixed(s, from.value.1, FHSIZE);
      if fh.Some? { LinkToSame(x, y, w1, from.value.0, fh.value.0, s, fh.value.1); }
    }
  }

  lemma ReadSame<FS(!new)>(x: Export<FS>, y: Export<FS>, w: World<FS>, s: seq<byte>, pos: nat)
    requires Alike(x, y, w)
    ensures Same(x, Read(x, w, s, pos), Read(y, w, s, pos))
  {
    ArgSame(x, y, w, s, pos);
  }

  lemma ReadlinkSame<FS(!new)>(x: Export<FS>, y: Export<FS>, w: World<FS>, s: seq<byte>, pos: nat)
    requires Alike(x, y, w)
    ensures Same(x, Readlink(x, w, s, pos), Readlink(y, w, s, pos))
  {
    ArgSame(x, y, w, s, pos);
  }

  lemma StatfsSame<FS(!new)>(x: Export<FS>, y: Export<FS>, w: World<FS>, s: seq<byte>, pos: nat)
    requires Alike(x, y, w)
    ensures Same(x, Statfs(x, w, s, pos), Statfs(y, w, s, pos))
  {
    ArgSame(x, y, w, s, pos);
  }

  /** Every listed name, "." and ".." and odder ones included, is examined inside the export. */
  lemma EntSame<FS(!new)>(x: Export<FS>, y: Export<FS>, w: World<FS>, dir: Path, name: FileName)
    requires Alike(x, y, w) && Inside(x.root, dir) && |dir| < PATH_MAX
    ensures EntOf(x, w.fs, dir, name) == EntOf(y, w.fs, dir, name)
  {
    JoinSame(x, y, w.table, dir, name);
  }

  lemma EntriesSame<FS(!new)>(x: Export<FS>, y: Export<FS>, w: World<FS>, dir: Path, names: seq<FileName>)
    requires Alike(x, y, w) && Inside(x.root, dir) && |dir| < PATH_MAX
    ensures Entries(x, w.fs, dir, names) == Entries(y, w.fs, dir, names)
  {
    forall i | 0 <= i < |names| ensures EntOf(x, w.fs, dir, names[i]) == EntOf(y, w.fs, dir, names[i]) {
      EntSame(x, y, w, dir, names[i]);
    }
  }

  lemma ListPathSame<FS(!new)>(x: Export<FS>, y: Export<FS>, w: World<FS>, dir: Path, cookie: u32, count: u32)
    requires Alike(x, y, w) && Inside(x.root, dir) && |dir| < PATH_MAX
    ensures Same(x, ListPath(x, w, dir, cookie, count), ListPath(y, w, dir, cookie, count))
  {
    var d := x.os.list(w.fs, dir);
    if d.Did? { EntriesSame(x, y, w, dir, d.value.names); }
  }

  lemma ListSame<FS(!new)>(x: Export<FS>, y: Export<FS>, w: World<FS>, s: seq<byte>, pos: nat)
    requires Alike(x, y, w)
    ensures Same(x, List(x, w, s, pos), List(y, w, s, pos))
  {
    ArgSame(x, y, w, s, pos);
    var (w1, a) := ArgFh(x, w, s, pos);
    if a.Some? && Two(s, a.value.1).Some? {
      var (cookie, count) := Two(s, a.value.1).value;
      ListPathSame(x, y, w1, a.value.0, cookie, count);
    }
  }

  lemma ChangeSame<FS(!new)>(x: Export<FS>, y: Export<FS>, p: Proc, w: World<FS>, s: seq<byte>, pos: nat)
    requires Alike(x, y, w) && Cached(p)
    ensures Same(x, Change(x, p, w, s, pos), Change(y, p, w, s, pos))
  {
    match p
    case SETATTR => SetattrSame(x, y, w, s, pos);
    case WRITE => WriteSame(x, y, w, s, pos);
    case CREATE => MakeSame(x, y, false, w, s, pos);
    case MKDIR => MakeSame(x, y, true, w, s, pos);
    case REMOVE => RemoveSame(x, y, false, w, s, pos);
    case RMDIR => RemoveSame(x, y, true, w, s, pos);
    case RENAME => RenameSame(x, y, w, s, pos);
    case LINK => LinkSame(x, y, w, s, pos);
    case SYMLINK => SymlinkSame(x, y, w, s, pos);
  }

  lemma ReportSame<FS(!new)>(x: Export<FS>, y: Export<FS>, p: Proc, w: World<FS>, s: seq<byte>, pos: nat)
    requires Alike(x, y, w) && !Cached(p)
    ensures Same(x, Report(x, p, w, s, pos), Report(y, p, w, s, pos))
  {
    match p
    case MNT => MountSame(x, y, w, s, pos);
    case GETATTR => GetattrSame(x, y, w, s, pos);
    case LOOKUP => LookupSame(x, y, w, s, pos);
    case READLINK => ReadlinkSame(x, y, w, s, pos);
    case READ => ReadSame(x, y, w, s, pos);
    case READDIR => ListSame(x, y, w, s, pos);
    case STATFS => StatfsSame(x, y, w, s, pos);
    case PMAPNULL | GETPORT | MNTNULL | UMNT | EXPORTS | NFSNULL =>
  }

  lemma PerformSame<FS(!new)>(x: Export<FS>, y: Export<FS>, p: Proc, w: World<FS>, s: seq<byte>, pos: nat)
    requires Alike(x, y, w)
    ensures Same(x, Perform(x, p, w, s, pos), Perform(y, p, w, s, pos))
  {
    if Cached(p) { ChangeSame(x, y, p, w, s, pos); } else { ReportSame(x, y, p, w, s, pos); }
  }

  lemma {:induction false} VersionsAgree<W>(rs: seq<Rpc.Route<W>>, qs: seq<Rpc.Route<W>>, prog: u32)
    requires |rs| == |qs| && forall i :: 0 <= i < |rs| ==> rs[i].prog == qs[i].prog && rs[i].vers == qs[i].vers
    ensures Rpc.Lowest(rs, prog) == Rpc.Lowest(qs, prog) && Rpc.Highest(rs, prog) == Rpc.Highest(qs, prog)
    decreases |rs|
  {
    if rs != [] { VersionsAgree(rs[..|rs| - 1], qs[..|qs| - 1], prog); }
  }

  lemma ErrorsAgree<FS>(x: Export<FS>, y: Export<FS>, c: Rpc.Call)
    ensures Rpc.ErrorReply(Routes(x), c) == Rpc.ErrorReply(Routes(y), c)
  {
    assert forall i :: 0 <= i < |PROCS| ==> Routes(x)[i].prog == Routes(y)[i].prog && Routes(x)[i].vers == Routes(y)[i].vers;
    AnswersAgree(Routes(x), Routes(y), c);
  }

  lemma AnswersAgree<W>(rs: seq<Rpc.Route<W>>, qs: seq<Rpc.Route<W>>, c: Rpc.Call)
    requires |rs| == |qs| && forall i :: 0 <= i < |rs| ==> rs[i].prog == qs[i].prog && rs[i].vers == qs[i].vers
    ensures Rpc.ErrorReply(rs, c) == Rpc.ErrorReply(qs, c)
  {
    VersionsAgree(rs, qs, c.prog);
  }

  /**
    Nothing outside the export is ever looked at or changed: over every run, two systems
    that agree on the paths inside the export give the same replies and the same final
    state, and every path the table ever holds is the export root or lies below it.
  */
  lemma {:induction false} RunStaysInside<FS(!new)>(x: Export<FS>, y: Export<FS>, s: Rpc.State<World<FS>>, ds: seq<Rpc.Datagram>)
    requires GoodExport(x) && SameInside(x, y) && Confined(x.root, s.world.table)
    ensures Rpc.Run(Routes(x), s, ds) == Rpc.Run(Routes(y), s, ds)
    ensures Rpc.Replies(Routes(x), s, ds) == Rpc.Replies(Routes(y), s, ds)
    ensures Confined(x.root, Rpc.Run(Routes(x), s, ds).world.table)
  {
    if ds != [] {
      var init, d := ds[..|ds| - 1], ds[|ds| - 1];
      RunStaysInside(x, y, s, init);
      HandleStaysInside(x, y, Rpc.Run(Routes(x), s, init), d);
    }
  }

  lemma ExecuteSame<FS(!new)>(x: Export<FS>, y: Export<FS>, p: Proc, w: World<FS>, s: seq<byte>, pos: nat, xid: u32)
    requires Alike(x, y, w)
    ensures Rpc.Execute(RouteOf(x, p), w, s, pos, xid) == Rpc.Execute(RouteOf(y, p), w, s, pos, xid)
    ensures Confined(x.root, Rpc.Execute(RouteOf(x, p), w, s, pos, xid).0.table)
  {
    PerformSame(x, y, p, w, s, pos);
  }

  lemma DispatchSame<FS(!new)>(x: Export<FS>, y: Export<FS>, p: Proc, error: seq<byte>, s: Rpc.State<World<FS>>, d: Rpc.Datagram, c: Rpc.Call, pos: nat)
    requires Alike(x, y, s.world)
    ensures Rpc.Dispatch(Some(RouteOf(x, p)), error, s, d, c, pos) == Rpc.Dispatch(Some(RouteOf(y, p)), error, s, d, c, pos)
    ensures Confined(x.root, Rpc.Dispatch(Some(RouteOf(x, p)), error, s, d, c, pos).0.world.table)
  {
    ExecuteSame(x, y, p, s.world, d.bytes, pos, c.xid);
  }

  lemma HandleStaysInside<FS(!new)>(x: Export<FS>, y: Export<FS>, s: Rpc.State<World<FS>>, d: Rpc.Datagram)
    requires Alike(x, y, s.world)
    ensures Rpc.Handle(Routes(x), s, d) == Rpc.Handle(Routes(y), s, d)
    ensures Confined(x.root, Rpc.Handle(Routes(x), s, d).0.world.table)
  {
    var parsed := Rpc.ParseCall(d.bytes);
    if parsed.Some? {
      var (c, pos) := parsed.value;
      FindRoute(x, c);
      FindRoute(y, c);
      ErrorsAgree(x, y, c);
      var p := FindProc(PROCS, c);
      if p.Some? { DispatchSame(x, y, p.value, Rpc.ErrorReply(Routes(x), c), s, d, c, pos); }
    }
  }

  // ---------------------------------------------------------------- what the table holds over a run

  lemma ResolveSlots<FS>(x: Export<FS>, w: World<FS>, fh: FileHandle)
    requires Slots(x.root, w.table)
    ensures var (w1, p) := Resolve(x, w, fh); Slots(x.root, w1.table) && (p.Some? ==> w1.table.paths != [])
  {
    if x.root != [] { ToPathSlots(x.hashes, x.root, x.os.tree(w.fs), w.table, fh); }
  }

  lemma ArgSlots<FS>(x: Export<FS>, w: World<FS>, s: seq<byte>, pos: nat)
    requires Slots(x.root, w.table)
    ensures var (w1, a) := ArgFh(x, w, s, pos); Slots(x.root, w1.table) && (a.Some? ==> w1.table.paths != [])
  {
    var fh := Xdr.GetFixed(s, pos, FHSIZE);
    if fh.Some? { ResolveSlots(x, w, fh.value.0); }
  }

  lemma LookupSlots<FS>(x: Export<FS>, w: World<FS>, s: seq<byte>, pos: nat)
    requires Slots(x.root, w.table)
    ensures Slots(x.root, Lookup(x, w, s, pos).world.table)
  {
    ArgSlots(x, w, s, pos);
    var (w1, a) := ArgFh(x, w, s, pos);
    if a.Some? && Name(s, a.value.1).Some? {
      var c := Join(x, a.value.0, Name(s, a.value.1).value.0);
      if c.Some? { InternSlots(x.root, w1.table, c.value); }
    }
  }

  lemma MakeSlots<FS>(x: Export<FS>, dirMode: bool, w: World<FS>, s: seq<byte>, pos: nat)
    requires Slots(x.root, w.table)
    ensures Slots(x.root, Make(x, dirMode, w, s, pos).world.table)
  {
    ArgSlots(x, w, s, pos);
    var (w1, a) := ArgFh(x, w, s, pos);
    if a.Some? && Name(s, a.value.1).Some? {
      var c := Join(x, a.value.0, Name(s, a.value.1).value.0);
      if c.Some? { InternSlots(x.root, w1.table, c.value); }
    }
  }

  lemma RenameToSlots<FS>(x: Export<FS>, w: World<FS>, fpath: Option<Path>, fh: FileHandle, s: seq<byte>, pos: nat)
    requires Slots(x.root, w.table)
    ensures Slots(x.root, RenameTo(x, w, fpath, fh, s, pos).world.table)
  {
    ResolveSlots(x, w, fh);
  }

  lemma LinkToSlots<FS>(x: Export<FS>, w: World<FS>, from: Path, fh: FileHandle, s: seq<byte>, pos: nat)
    requires Slots(x.root, w.table)
    ensures Slots(x.root, LinkTo(x, w, from, fh, s, pos).world.table)
  {
    ResolveSlots(x, w, fh);
  }

  lemma RenameSlots<FS>(x: Export<FS>, w: World<FS>, s: seq<byte>, pos: nat)
    requires Slots(x.root, w.table)
    ensures Slots(x.root, Rename(x, w, s, pos).world.table)
  {
    ArgSlots(x, w, s, pos);
    var (w1, a) := ArgFh(x, w, s, pos);
    if a.Some? && Name(s, a.value.1).Some? {
      var name := Name(s, a.value.1).value;
      var fh := Xdr.GetFixed(s, name.1, FHSIZE);
      if fh.Some? { RenameToSlots(x, w1, Join(x, a.value.0, name.0), fh.value.0, s, fh.value.1); }
    }
  }

  lemma LinkSlots<FS>(x: Export<FS>, w: World<FS>, s: seq<byte>, pos: nat)
    requires Slots(x.root, w.table)
    ensures Slots(x.root, Link(x, w, s, pos).world.table)
  {
    ArgSlots(x, w, s, pos);
    var (w1, a) := ArgFh(x, w, s, pos);
    if a.Some? {
      var fh := Xdr.GetFixed(s, a.value.1, FHSIZE);
      if fh.Some? { LinkToSlots(x, w1, a.value.0, fh.value.0, s, fh.value.1); }
    }
  }

  lemma ChangeSlots<FS>(x: Export<FS>, p: Proc, w: World<FS>, s: seq<byte>, pos: nat)
    requires Slots(x.root, w.table) && Cached(p)
    ensures Slots(x.root, Change(x, p, w, s, pos).world.table)
  {
    ArgSlots(x, w, s, pos);
    match p
    case CREATE => MakeSlots(x, false, w, s, pos);
    case MKDIR => MakeSlots(x, true, w, s, pos);
    case RENAME => RenameSlots(x, w, s, pos);
    case LINK => LinkSlots(x, w, s, pos);
    case _ =>
  }

  lemma ReportSlots<FS>(x: Export<FS>, p: Proc, w: World<FS>, s: seq<byte>, pos: nat)
    requires Slots(x.root, w.table) && !Cached(p)
    ensures Slots(x.root, Report(x, p, w, s, pos).world.table)
  {
    ArgSlots(x, w, s, pos);
    match p
    case MNT => InternSlots(x.root, w.table, x.root);
    case LOOKUP => LookupSlots(x, w, s, pos);
    case _ =>
  }

  lemma HandleSlots<FS>(x: Export<FS>, s: Rpc.State<World<FS>>, d: Rpc.Datagram)
    requires Slots(x.root, s.world.table)
    ensures Slots(x.root, Rpc.Handle(Routes(x), s, d).0.world.table)
  {
    var parsed := Rpc.ParseCall(d.bytes);
    if parsed.Some? {
      var (c, pos) := parsed.value;
      FindRoute(x, c);
      var p := FindProc(PROCS, c);
      if p.Some? { DispatchSlots(x, p.value, Rpc.ErrorReply(Routes(x), c), s, d, c, pos); }
    }
  }

  lemma DispatchSlots<FS>(x: Export<FS>, p: Proc, error: seq<byte>, s: Rpc.State<World<FS>>, d: Rpc.Datagram, c: Rpc.Call, pos: nat)
    requires Slots(x.root, s.world.table)
    ensures Slots(x.root, Rpc.Dispatch(Some(RouteOf(x, p)), error, s, d, c, pos).0.world.table)
  {
    if Cached(p) {
      ChangeSlots(x, p, s.world, d.bytes, pos);
    } else {
      ReportSlots(x, p, s.world, d.bytes, pos);
    }
  }

  /** Over every run the table holds no path twice and the export root first, so no other path is ever issued index 0. */
  lemma {:induction false} RunSlots<FS>(x: Export<FS>, s: Rpc.State<World<FS>>, ds: seq<Rpc.Datagram>)
    requires Slots(x.root, s.world.table)
    ensures Slots(x.root, Rpc.Run(Routes(x), s, ds).world.table)
  {
    if ds != [] {
      var init, d := ds[..|ds| - 1], ds[|ds| - 1];
      RunSlots(x, s, init);
      HandleSlots(x, Rpc.Run(Routes(x), s, init), d);
    }
  }
}
