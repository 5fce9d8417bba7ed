/**
  The procedures of the server as they run: arguments are read from one cursor, the reply
  is written through another, the handle table and the file system change in place. Each
  is shown to do what `Nfs.Perform` says.
*/
module Handlers {
  import opened Bytes
  import opened Paths
  import opened Handles
  import opened Nfs
  import Readdir
  import Xdr

  const REPLY_ROOM := 104

  class Procedures<FS> {
    const x: Export<FS>
    const table: FhTable
    var fs: FS

    ghost predicate Valid()
      reads this, table
    {
      table.Valid() && table.root == x.root && table.h == x.hashes
    }

    ghost function Now(): World<FS>
      reads this, table
    {
      World(fs, table.Abs())
    }

    /** The cursors stand as the dispatcher leaves them: arguments to read, room for a reply. */
    ghost predicate Ready(args: Xdr.Cursor, out: Xdr.Cursor)
      reads args, out
    {
      && args != out && args.buf != out.buf
      && args.Valid() && !args.err && out.Valid() && !out.err && out.pos + BODY_MAX <= out.cap
    }

    ghost function Input(args: Xdr.Cursor): seq<byte>
      requires args.Valid()
      reads args, args.buf
    {
      args.buf[..args.cap]
    }

    constructor (e: Export<FS>, start: FS)
      requires e.root != []
      ensures Valid() && x == e && Now() == World(start, Table([], false)) && fresh(table)
    {
      x, fs := e, start;
      table := new FhTable(e.hashes, e.root);
    }

    /** A handle argument, resolved through the table. */
    method Resolve(fh: FileHandle) returns (path: Option<Path>)
      requires Valid()
      modifies table
      ensures Valid() && (Now(), path) == Nfs.Resolve(x, old(Now()), fh)
    {
      path := table.FhToPath(x.os.tree(fs), fh);
    }

    /** The handle at the cursor; the call is answered with "stale" when it stands for nothing. */
    method ArgFh(args: Xdr.Cursor) returns (path: Option<Path>)
      requires Valid() && args.Valid() && !args.err
      modifies table, args`pos, args`err
      ensures Valid() && args.Valid()
      ensures var (w, a) := Nfs.ArgFh(x, old(Now()), Input(args), old(args.pos));
        Now() == w && if a.Some? then path == Some(a.value.0) && args.pos == a.value.1 && !args.err else path == None
    {
      var fh := args.ReadFixed(FHSIZE);
      if fh.None? { return None; }
      path := Resolve(fh.value);
    }

    method ReadSattr(args: Xdr.Cursor) returns (r: Option<(u32, u32)>)
      requires args.Valid() && !args.err
      modifies args`pos, args`err
      ensures args.Valid() && r == Sattr(Input(args), old(args.pos))
    {
      var mode :- args.ReadU32();
      var _ :- args.ReadU32();
      var _ :- args.ReadU32();
      var size :- args.ReadU32();
      var _ :- args.ReadU32();
      var _ :- args.ReadU32();
      var _ :- args.ReadU32();
      var _ :- args.ReadU32();
      return Some((mode, size));
    }

    method ReadName(args: Xdr.Cursor) returns (r: Option<Path>)
      requires args.Valid() && !args.err
      modifies args`pos, args`err
      ensures args.Valid()
      ensures var g := Name(Input(args), old(args.pos));
        if g.Some? then r == Some(g.value.0) && args.pos == g.value.1 && !args.err else r == None
    {
      r := args.ReadString(NAMEMAX + 1);
    }

    method PutStatus(out: Xdr.Cursor, status: u32)
      requires out.Valid() && !out.err && out.pos + 4 <= out.cap
      modifies out, out.buf
      ensures out.Valid() && !out.err && out.Done() == old(out.Done()) + AnswerBytes(Status(status))
    {
      var _ := out.WriteU32(status);
    }

    method PutWords(out: Xdr.Cursor, ws: seq<u32>)
      requires out.Valid() && !out.err && out.pos + 4 * |ws| <= out.cap
      modifies out, out.buf
      ensures out.Valid() && !out.err && out.Done() == old(out.Done()) + Words(ws)
    {
      ghost var start := out.Done();
      assert start + Words([]) == start && ws[..0] == [];
      for i := 0 to |ws|
        invariant out.Valid() && !out.err && out.Done() == start + Words(ws[..i])
      {
        WordsSnoc(ws[..i], ws[i]);
        assert ws[..i + 1] == ws[..i] + [ws[i]];
        Assoc(start, Words(ws[..i]), Xdr.U32Bytes(ws[i]));
        var _ := out.WriteU32(ws[i]);
      }
      assert ws[..|ws|] == ws;
    }

    method PutAttrs(out: Xdr.Cursor, r: Sys<Fattr>)
      requires out.Valid() && !out.err && out.pos + REPLY_ROOM <= out.cap
      modifies out, out.buf
      ensures out.Valid() && !out.err
      ensures out.Done() == old(out.Done()) + AnswerBytes(if r.Failed? then Status(NfsStatus(r.errno)) else Attrs(r.value))
    {
      if r.Failed? {
        PutStatus(out, NfsStatus(r.errno));
        return;
      }
      ghost var start := out.Done();
      var _ := out.WriteU32(NFS_OK);
      PutWords(out, r.value);
      Assoc(start, Xdr.U32Bytes(NFS_OK), Words(r.value));
    }

    method PutHandle(out: Xdr.Cursor, fh: FileHandle)
      requires out.Valid() && !out.err && out.pos + 36 <= out.cap
      modifies out, out.buf
      ensures out.Valid() && !out.err && out.Done() == old(out.Done()) + AnswerBytes(NewHandle(fh))
    {
      ghost var start := out.Done();
      var _ := out.WriteU32(NFS_OK);
      var _ := out.WriteFixed(fh);
      Assoc(start, Xdr.U32Bytes(NFS_OK), Xdr.FixedBytes(fh));
    }

    method PutHandleAttrs(out: Xdr.Cursor, fh: FileHandle, attrs: Fattr)
      requires out.Valid() && !out.err && out.pos + REPLY_ROOM <= out.cap
      modifies out, out.buf
      ensures out.Valid() && !out.err && out.Done() == old(out.Done()) + AnswerBytes(HandleAttrs(fh, attrs))
    {
      ghost var start := out.Done();
      PutHandle(out, fh);
      PutWords(out, attrs);
      Assoc(start, AnswerBytes(NewHandle(fh)), Words(attrs));
    }

    // ---------------------------------------------------------------- procedures

    /** What a procedure has done, given what it should do. */
    ghost predicate Did(out: Xdr.Cursor, before: seq<byte>, drop: bool, r: Reply<FS>)
      reads this, table, out, out.buf
      requires out.Valid()
    {
      && Now() == r.world && drop == r.answer.NoReply?
      && (!drop ==> !out.err && out.Done() == before + AnswerBytes(r.answer))
    }

    /** The system call has changed the file system, or failed; the reply is a status. */
    method PutOutcome(out: Xdr.Cursor, r: (FS, Sys<()>))
      requires Valid() && out.Valid() && !out.err && out.pos + REPLY_ROOM <= out.cap
      modifies `fs, out, out.buf
      ensures Valid() && out.Valid()
      ensures Did(out, old(out.Done()), false, Nfs.Outcome(old(Now()), r))
    {
      fs := r.0;
      PutStatus(out, if r.1.Failed? then NfsStatus(r.1.errno) else NFS_OK);
    }

    method Getattr(args: Xdr.Cursor, out: Xdr.Cursor) returns (drop: bool)
      requires Valid() && Ready(args, out)
      modifies this, table, args, out, out.buf
      ensures Valid() && out.Valid()
      ensures Did(out, old(out.Done()), drop, Nfs.Getattr(x, old(Now()), old(Input(args)), old(args.pos)))
    {
      var path := ArgFh(args);
      if path.None? {
        PutStatus(out, NFSERR_STALE);
        return false;
      }
      PutAttrs(out, x.os.lstat(fs, path.value));
      return false;
    }

    method Mount(args: Xdr.Cursor, out: Xdr.Cursor) returns (drop: bool)
      requires Valid() && Ready(args, out)
      modifies this, table, args, out, out.buf
      ensures Valid() && out.Valid()
      ensures Did(out, old(out.Done()), drop, Nfs.Mount(x, old(Now()), old(Input(args)), old(args.pos)))
    {
      var dir := args.ReadString(1024);
      if dir.None? { return true; }
      if dir.value != x.root {
        PutStatus(out, NFSERR_ACCES);
        return false;
      }
      if !x.os.isDir(fs, x.root) {
        PutStatus(out, NFSERR_NOTDIR);
        return false;
      }
      var fh := table.FhFromPath(x.root);
      PutHandle(out, fh);
      return false;
    }

    method Lookup(args: Xdr.Cursor, out: Xdr.Cursor) returns (drop: bool)
      requires Valid() && Ready(args, out)
      modifies this, table, args, out, out.buf
      ensures Valid() && out.Valid()
      ensures Did(out, old(out.Done()), drop, Nfs.Lookup(x, old(Now()), old(Input(args)), old(args.pos)))
    {
      var dir := ArgFh(args);
      if dir.None? {
        PutStatus(out, NFSERR_STALE);
        return false;
      }
      var name := ReadName(args);
      if name.None? { return true; }
      var child := Join(x, dir.value, name.value);
      if child.None? {
        PutStatus(out, NFSERR_NOENT);
        return false;
      }
      var st := x.os.lstat(fs, child.value);
      if st.Failed? {
        PutStatus(out, NfsStatus(st.errno));
        return false;
      }
      var fh := table.FhFromPath(child.value);
      PutHandleAttrs(out, fh, st.value);
      return false;
    }

    method Setattr(args: Xdr.Cursor, out: Xdr.Cursor) returns (drop: bool)
      requires Valid() && Ready(args, out)
      modifies this, table, args, out, out.buf
      ensures Valid() && out.Valid()
      ensures Did(out, old(out.Done()), drop, Nfs.Setattr(x, old(Now()), old(Input(args)), old(args.pos)))
    {
      var path := ArgFh(args);
      if path.None? {
        PutStatus(out, NFSERR_STALE);
        return false;
      }
      var sattr := ReadSattr(args);
      if sattr.None? { return true; }
      var (mode, size) := sattr.value;
      if mode != UNSET {
        fs := x.os.chmod(fs, path.value, Permissions(mode));
      }
      if size != UNSET {
        fs := x.os.truncate(fs, path.value, size);
      }
      PutAttrs(out, x.os.lstat(fs, path.value));
      return false;
    }

    method ReadWriteArgs(args: Xdr.Cursor) returns (r: Option<(u32, seq<byte>)>)
      requires args.Valid() && !args.err
      modifies args`pos, args`err
      ensures args.Valid() && r == WriteArgs(Input(args), old(args.pos))
    {
      var _ :- args.ReadU32();
      var offset :- args.ReadU32();
      var _ :- args.ReadU32();
      var data :- args.ReadBytes();
      return Some((offset, data));
    }

    method Write(args: Xdr.Cursor, out: Xdr.Cursor) returns (drop: bool)
      requires Valid() && Ready(args, out)
      modifies this, table, args, out, out.buf
      ensures Valid() && out.Valid()
      ensures Did(out, old(out.Done()), drop, Nfs.Write(x, old(Now()), old(Input(args)), old(args.pos)))
    {
      var path := ArgFh(args);
      if path.None? {
        PutStatus(out, NFSERR_STALE);
        return false;
      }
      var w := ReadWriteArgs(args);
      if w.None? { return true; }
      var (after, r) := x.os.write(fs, path.value, w.value.0, w.value.1);
      fs := after;
      PutAttrs(out, r);
      return false;
    }

    /** CREATE and MKDIR. */
    method Make(dirMode: bool, args: Xdr.Cursor, out: Xdr.Cursor) returns (drop: bool)
      requires Valid() && Ready(args, out)
      modifies this, table, args, out, out.buf
      ensures Valid() && out.Valid()
      ensures Did(out, old(out.Done()), drop, Nfs.Make(x, dirMode, old(Now()), old(Input(args)), old(args.pos)))
    {
      var dir := ArgFh(args);
      if dir.None? {
        PutStatus(out, NFSERR_STALE);
        return false;
      }
      var name := ReadName(args);
      if name.None? { return true; }
      var sattr := ReadSattr(args);
      if sattr.None? { return true; }
      var child := Join(x, dir.value, name.value);
      if child.None? {
        PutStatus(out, NFSERR_ACCES);
        return false;
      }
      MakeChild(dirMode, child.value, sattr.value.0, out);
      return false;
    }

    method MakeChild(dirMode: bool, child: Path, asked: u32, out: Xdr.Cursor)
      requires Valid() && out.Valid() && !out.err && out.pos + REPLY_ROOM <= out.cap
      modifies this, table, out, out.buf
      ensures Valid() && out.Valid()
      ensures Did(out, old(out.Done()), false, Nfs.MakeChild(x, dirMode, old(Now()), child, asked))
    {
      var mode := asked;
      if mode == UNSET {
        mode := if dirMode then 0x1ed else 0x1a4;
      }
      var (after, r) := if dirMode then x.os.mkdir(fs, child, Permissions(mode)) else x.os.create(fs, child, Permissions(mode));
      fs := after;
      if r.Failed? {
        PutStatus(out, NfsStatus(r.errno));
        return;
      }
      var st := x.os.lstat(fs, child);
      if st.Failed? {
        PutStatus(out, NFSERR_IO);
        return;
      }
      var fh := table.FhFromPath(child);
      PutHandleAttrs(out, fh, st.value);
    }

    /** REMOVE and RMDIR. */
    method Remove(isDir: bool, args: Xdr.Cursor, out: Xdr.Cursor) returns (drop: bool)
      requires Valid() && Ready(args, out)
      modifies this, table, args, out, out.buf
      ensures Valid() && out.Valid()
      ensures Did(out, old(out.Done()), drop, Nfs.Remove(x, isDir, old(Now()), old(Input(args)), old(args.pos)))
    {
      var dir := ArgFh(args);
      if dir.None? {
        PutStatus(out, NFSERR_STALE);
        return false;
      }
      var name := ReadName(args);
      if name.None? { return true; }
      var child := Join(x, dir.value, name.value);
      if child.None? {
        PutStatus(out, NFSERR_ACCES);
        return false;
      }
      PutOutcome(out, if isDir then x.os.rmdir(fs, child.value) else x.os.unlink(fs, child.value));
      return false;
    }

    method Rename(args: Xdr.Cursor, out: Xdr.Cursor) returns (drop: bool)
      requires Valid() && Ready(args, out)
      modifies this, table, args, out, out.buf
      ensures Valid() && out.Valid()
      ensures Did(out, old(out.Done()), drop, Nfs.Rename(x, old(Now()), old(Input(args)), old(args.pos)))
    {
      var from := ArgFh(args);
      if from.None? {
        PutStatus(out, NFSERR_STALE);
        return false;
      }
      var fname := ReadName(args);
      if fname.None? { return true; }
      var fh := args.ReadFixed(FHSIZE);
      if fh.None? { return true; }
      var todir := Resolve(fh.value);
      if todir.None? {
        PutStatus(out, NFSERR_STALE);
        return false;
      }
      var tname := ReadName(args);
      if tname.None? { return true; }
      var fpath, tpath := Join(x, from.value, fname.value), Join(x, todir.value, tname.value);
      if fpath.None? || tpath.None? {
        PutStatus(out, NFSERR_ACCES);
        return false;
      }
      PutOutcome(out, x.os.rename(fs, fpath.value, tpath.value));
      return false;
    }

    method Link(args: Xdr.Cursor, out: Xdr.Cursor) returns (drop: bool)
      requires Valid() && Ready(args, out)
      modifies this, table, args, out, out.buf
      ensures Valid() && out.Valid()
      ensures Did(out, old(out.Done()), drop, Nfs.Link(x, old(Now()), old(Input(args)), old(args.pos)))
    {
      var from := ArgFh(args);
      if from.None? {
        PutStatus(out, NFSERR_STALE);
        return false;
      }
      var fh := args.ReadFixed(FHSIZE);
      if fh.None? { return true; }
      var todir := Resolve(fh.value);
      if todir.None? {
        PutStatus(out, NFSERR_STALE);
        return false;
      }
      var tname := ReadName(args);
      if tname.None? { return true; }
      var tpath := Join(x, todir.value, tname.value);
      if tpath.None? {
        PutStatus(out, NFSERR_ACCES);
        return false;
      }
      PutOutcome(out, x.os.link(fs, from.value, tpath.value));
      return false;
    }

    method Symlink(args: Xdr.Cursor, out: Xdr.Cursor) returns (drop: bool)
      requires Valid() && Ready(args, out)
      modifies this, table, args, out, out.buf
      ensures Valid() && out.Valid()
      ensures Did(out, old(out.Done()), drop, Nfs.Symlink(x, old(Now()), old(Input(args)), old(args.pos)))
    {
      var dir := ArgFh(args);
      if dir.None? {
        PutStatus(out, NFSERR_STALE);
        return false;
      }
      var name := ReadName(args);
      if name.None? { return true; }
      var target := args.ReadString(1024);
      if target.None? { return true; }
      var sattr := ReadSattr(args);
      if sattr.None? { return true; }
      var child := Join(x, dir.value, name.value);
      if child.None? {
        PutStatus(out, NFSERR_ACCES);
        return false;
      }
      PutOutcome(out, x.os.symlink(fs, target.value, child.value));
      return false;
    }

    // ---------------------------------------------------------------- reading and listing

    method ReadThree(args: Xdr.Cursor) returns (r: Option<(u32, u32, u32)>)
      requires args.Valid() && !args.err
      modifies args`pos, args`err
      ensures args.Valid() && r == Three(Input(args), old(args.pos))
    {
      var a :- args.ReadU32();
      var b :- args.ReadU32();
      var c :- args.ReadU32();
      return Some((a, b, c));
    }

    method ReadTwo(args: Xdr.Cursor) returns (r: Option<(u32, u32)>)
      requires args.Valid() && !args.err
      modifies args`pos, args`err
      ensures args.Valid() && r == Two(Input(args), old(args.pos))
    {
      var a :- args.ReadU32();
      var b :- args.ReadU32();
      return Some((a, b));
    }

    method PutRead(out: Xdr.Cursor, attrs: Fattr, data: seq<byte>)
      requires out.Valid() && !out.err && |data| <= READ_MAX && out.pos + BODY_MAX <= out.cap
      modifies out, out.buf
      ensures out.Valid() && !out.err && out.Done() == old(out.Done()) + ReadBody(attrs, data)
    {
      ghost var start := out.Done();
      var _ := out.WriteU32(NFS_OK);
      PutWords(out, attrs);
      var _ := out.WriteBytes(data);
      Join3(start, Xdr.U32Bytes(NFS_OK), Words(attrs), Xdr.OpaqueBytes(data));
    }

    method PutLink(out: Xdr.Cursor, target: seq<byte>)
      requires out.Valid() && !out.err && |target| <= LINK_MAX && out.pos + BODY_MAX <= out.cap
      modifies out, out.buf
      ensures out.Valid() && !out.err && out.Done() == old(out.Done()) + LinkBody(target)
    {
      ghost var start := out.Done();
      var _ := out.WriteU32(NFS_OK);
      var _ := out.WriteBytes(target);
      Assoc(start, Xdr.U32Bytes(NFS_OK), Xdr.OpaqueBytes(target));
    }

    method ReadPath(out: Xdr.Cursor, path: Path, offset: u32, asked: u32)
      requires Valid() && out.Valid() && !out.err && out.pos + BODY_MAX <= out.cap
      modifies out, out.buf
      ensures Valid() && out.Valid()
      ensures Did(out, old(out.Done()), false, Nfs.ReadPath(x, old(Now()), path, offset, asked))
    {
      var count := if asked > READ_MAX then READ_MAX else asked;
      var r := x.os.read(fs, path, offset, count);
      if r.Failed? {
        PutStatus(out, NfsStatus(r.errno));
        return;
      }
      PutRead(out, r.value.0, AtMost(r.value.1, count));
    }

    method Read(args: Xdr.Cursor, out: Xdr.Cursor) returns (drop: bool)
      requires Valid() && Ready(args, out)
      modifies this, table, args, out, out.buf
      ensures Valid() && out.Valid()
      ensures Did(out, old(out.Done()), drop, Nfs.Read(x, old(Now()), old(Input(args)), old(args.pos)))
    {
      var path := ArgFh(args);
      if path.None? {
        PutStatus(out, NFSERR_STALE);
        return false;
      }
      var ws := ReadThree(args);
      if ws.None? { return true; }
      ReadPath(out, path.value, ws.value.0, ws.value.1);
      return false;
    }

    method Readlink(args: Xdr.Cursor, out: Xdr.Cursor) returns (drop: bool)
      requires Valid() && Ready(args, out)
      modifies this, table, args, out, out.buf
      ensures Valid() && out.Valid()
      ensures Did(out, old(out.Done()), drop, Nfs.Readlink(x, old(Now()), old(Input(args)), old(args.pos)))
    {
      var path := ArgFh(args);
      if path.None? {
        PutStatus(out, NFSERR_STALE);
        return false;
      }
      var r := x.os.readlink(fs, path.value);
      if r.Failed? {
        PutStatus(out, NfsStatus(r.errno));
        return false;
      }
      PutLink(out, AtMost(r.value, LINK_MAX));
      return false;
    }

    method PutStatfs(out: Xdr.Cursor, ws: seq<u32>)
      requires out.Valid() && !out.err && |ws| == 5 && out.pos + BODY_MAX <= out.cap
      modifies out, out.buf
      ensures out.Valid() && !out.err && out.Done() == old(out.Done()) + (Xdr.U32Bytes(NFS_OK) + Words(ws))
    {
      ghost var start := out.Done();
      var _ := out.WriteU32(NFS_OK);
      PutWords(out, ws);
      Assoc(start, Xdr.U32Bytes(NFS_OK), Words(ws));
    }

    method Statfs(args: Xdr.Cursor, out: Xdr.Cursor) returns (drop: bool)
      requires Valid() && Ready(args, out)
      modifies this, table, args, out, out.buf
      ensures Valid() && out.Valid()
      ensures Did(out, old(out.Done()), drop, Nfs.Statfs(x, old(Now()), old(Input(args)), old(args.pos)))
    {
      var path := ArgFh(args);
      if path.None? {
        PutStatus(out, NFSERR_STALE);
        return false;
      }
      var r := x.os.statfs(fs, path.value);
      if r.Failed? {
        PutStatus(out, NfsStatus(r.errno));
        return false;
      }
      var (size, blocks, free, avail) := r.value;
      PutStatfs(out, [READ_MAX, size, blocks, free, avail]);
      return false;
    }

    /** The entries of a directory, each joined and examined. */
    method ScanDir(dir: Path, names: seq<FileName>) returns (es: seq<Readdir.Ent>)
      ensures es == Entries(x, fs, dir, names)
    {
      es := [];
      for i := 0 to |names|
        invariant |es| == i && forall j :: 0 <= j < i ==> es[j] == EntOf(x, fs, dir, names[j])
      {
        var child := Join(x, dir, names[i]);
        var e := Readdir.Ent(names[i], None);
        if child.Some? {
          var st := x.os.lstat(fs, child.value);
          if st.Did? { e := Readdir.Ent(names[i], Some(st.value[FILEID])); }
        }
        es := es + [e];
      }
    }

    method PutList(out: Xdr.Cursor, es: seq<Readdir.Ent>, failed: bool, cookie: u32, count: u32)
      requires out.Valid() && !out.err && Readdir.Nameable(es) && |es| < Readdir.WRAP && out.pos + BODY_MAX <= out.cap
      modifies out, out.buf
      ensures out.Valid() && !out.err && out.Done() == old(out.Done()) + Readdir.ReplyBody(es, failed, cookie, count)
    {
      ghost var start := out.Done();
      ghost var data := Readdir.ReadDirectory(out, es, failed, cookie, count);
      ghost var stop := Readdir.Pick(es, Readdir.Sizes(es), 0, cookie, Readdir.Cap(count), 0).1;
      Join4(start, Xdr.U32Bytes(NFS_OK), data, Xdr.U32Bytes(0), Xdr.U32Bytes(if stop == |es| && !failed then 1 else 0));
    }

    method ListPath(out: Xdr.Cursor, dir: Path, cookie: u32, count: u32)
      requires Valid() && out.Valid() && !out.err && out.pos + BODY_MAX <= out.cap
      modifies out, out.buf
      ensures Valid() && out.Valid()
      ensures Did(out, old(out.Done()), false, Nfs.ListPath(x, old(Now()), dir, cookie, count))
    {
      var d := x.os.list(fs, dir);
      if d.Failed? {
        PutStatus(out, NfsStatus(d.errno));
        return;
      }
      var es := ScanDir(dir, d.value.names);
      PutList(out, es, d.value.failed, cookie, count);
    }

    method List(args: Xdr.Cursor, out: Xdr.Cursor) returns (drop: bool)
      requires Valid() && Ready(args, out)
      modifies this, table, args, out, out.buf
      ensures Valid() && out.Valid()
      ensures Did(out, old(out.Done()), drop, Nfs.List(x, old(Now()), old(Input(args)), old(args.pos)))
    {
      var path := ArgFh(args);
      if path.None? {
        PutStatus(out, NFSERR_STALE);
        return false;
      }
      var ws := ReadTwo(args);
      if ws.None? { return true; }
      ListPath(out, path.value, ws.value.0, ws.value.1);
      return false;
    }

    // ---------------------------------------------------------------- port mapper and export list

    method GetPort(args: Xdr.Cursor, out: Xdr.Cursor) returns (drop: bool)
      requires Valid() && Ready(args, out)
      modifies args, out, out.buf
      ensures Valid() && out.Valid()
      ensures Did(out, old(out.Done()), drop, Nfs.GetPort(x, old(Now()), old(Input(args)), old(args.pos)))
    {
      var prog := args.ReadU32();
      if prog.None? { return true; }
      var vers := args.ReadU32();
      if vers.None? { return true; }
      var prot := args.ReadU32();
      if prot.None? { return true; }
      var port := args.ReadU32();
      if port.None? { return true; }
      var _ := out.WriteU32(if prog.value == MOUNT_PROG || prog.value == NFS_PROG then x.port else 0);
      return false;
    }

    method Exports(out: Xdr.Cursor)
      requires Valid() && out.Valid() && !out.err && |x.root| < PATH_MAX && out.pos + BODY_MAX <= out.cap
      modifies out, out.buf
      ensures Valid() && out.Valid()
      ensures Did(out, old(out.Done()), false, Nfs.Exports(x, old(Now())))
    {
      ghost var before := out.Done();
      var _ := out.WriteU32(1);
      PutRoot(out);
      PutListEnd(out);
      Regroup(before, Xdr.U32Bytes(1), Xdr.U32Bytes(|x.root| % 0x1_0000_0000), Xdr.FixedBytes(x.root), Xdr.U32Bytes(0));
    }

    method PutRoot(out: Xdr.Cursor)
      requires out.Valid() && !out.err && out.pos + 4 + |Xdr.FixedBytes(x.root)| <= out.cap
      modifies out, out.buf
      ensures out.Valid() && !out.err
      ensures out.Done() == old(out.Done()) + Xdr.U32Bytes(|x.root| % 0x1_0000_0000) + Xdr.FixedBytes(x.root)
    {
      var _ := out.WriteU32(|x.root| % 0x1_0000_0000);
      var _ := out.WriteFixed(x.root);
    }

    /** No groups, and no more exports. */
    method PutListEnd(out: Xdr.Cursor)
      requires out.Valid() && !out.err && out.pos + 8 <= out.cap
      modifies out, out.buf
      ensures out.Valid() && !out.err
      ensures out.Done() == old(out.Done()) + Xdr.U32Bytes(0) + Xdr.U32Bytes(0)
    {
      var _ := out.WriteU32(0);
      var _ := out.WriteU32(0);
    }

    // ---------------------------------------------------------------- the procedures by number

    /** The procedures with handles and names do in place what they do as functions. */
    method PerformSmall(p: Proc, args: Xdr.Cursor, out: Xdr.Cursor) returns (drop: bool)
      requires Small(p)
      requires Valid() && Ready(args, out)
      modifies this, table, args, out, out.buf
      ensures Valid() && out.Valid()
      ensures Did(out, old(out.Done()), drop, Nfs.Perform(x, p, old(Now()), old(Input(args)), old(args.pos)))
    {
      match p
      case SETATTR => drop := Setattr(args, out);
      case WRITE => drop := Write(args, out);
      case CREATE => drop := Make(false, args, out);
      case REMOVE => drop := Remove(false, args, out);
      case RENAME => drop := Rename(args, out);
      case LINK => drop := Link(args, out);
      case SYMLINK => drop := Symlink(args, out);
      case MKDIR => drop := Make(true, args, out);
      case RMDIR => drop := Remove(true, args, out);
      case MNT => drop := Mount(args, out);
      case GETATTR => drop := Getattr(args, out);
      case LOOKUP => drop := Lookup(args, out);
    }

    method PerformOther(p: Proc, args: Xdr.Cursor, out: Xdr.Cursor) returns (drop: bool)
      requires !Small(p)
      requires Valid() && Ready(args, out) && |x.root| < PATH_MAX
      modifies this, table, args, out, out.buf
      ensures Valid() && out.Valid()
      ensures Did(out, old(out.Done()), drop, Nfs.Perform(x, p, old(Now()), old(Input(args)), old(args.pos)))
    {
      match p
      case READLINK => drop := Readlink(args, out);
      case READ => drop := Read(args, out);
      case READDIR => drop := List(args, out);
      case STATFS => drop := Statfs(args, out);
      case GETPORT => drop := GetPort(args, out);
      case EXPORTS =>
        Exports(out);
        drop := false;
      case PMAPNULL | MNTNULL | NFSNULL | UMNT =>
        assert out.Done() + [] == out.Done();
        drop := false;
    }

    /** Every procedure does in place what it does as a function, and its reply fits. */
    method Perform(p: Proc, args: Xdr.Cursor, out: Xdr.Cursor) returns (drop: bool)
      requires Valid() && Ready(args, out) && |x.root| < PATH_MAX
      modifies this, table, args, out, out.buf
      ensures Valid() && out.Valid()
      ensures Did(out, old(out.Done()), drop, Nfs.Perform(x, p, old(Now()), old(Input(args)), old(args.pos)))
      ensures !drop ==> out.pos <= old(out.pos) + BODY_MAX
    {
      EveryReplyFits(x, p, Now(), Input(args), args.pos);
      if Small(p) {
        drop := PerformSmall(p, args, out);
      } else {
        drop := PerformOther(p, args, out);
      }
    }
  }

  lemma Join3(a: seq<byte>, b: seq<byte>, c: seq<byte>, d: seq<byte>)
    ensures a + b + c + d == a + (b + c + d)
  {
  }

  lemma Join4(a: seq<byte>, b: seq<byte>, c: seq<byte>, d: seq<byte>, e: seq<byte>)
    ensures a + b + c + d + e == a + (b + c + d + e)
  {
  }

  lemma Regroup(a: seq<byte>, b: seq<byte>, c: seq<byte>, d: seq<byte>, e: seq<byte>)
    ensures a + b + c + d + e + e == a + (b + c + d + e + e)
  {
  }

  /** The procedures whose replies are a status, attributes or a handle. */
  predicate Small(p: Proc) { Cached(p) || p.MNT? || p.GETATTR? || p.LOOKUP? }

  lemma {:induction false} WordsSnoc(ws: seq<u32>, w: u32)
    ensures Words(ws + [w]) == Words(ws) + Xdr.U32Bytes(w)
  {
    if ws == [] {
      assert Words([w]) == Xdr.U32Bytes(w) + Words([w][1..]);
      assert Xdr.U32Bytes(w) + [] == [] + Xdr.U32Bytes(w);
    } else {
      assert (ws + [w])[1..] == ws[1..] + [w];
      WordsSnoc(ws[1..], w);
      Assoc(Xdr.U32Bytes(ws[0]), Words(ws[1..]), Xdr.U32Bytes(w));
    }
  }
}
