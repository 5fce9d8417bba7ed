/**
  The whole NFS server as it runs: a datagram is parsed through one cursor, the ring of the
  duplicate request cache is asked, the procedure works in place, the reply is written
  through another cursor and remembered. It does what `Rpc.Handle` says of the routes of
  `Nfs`, and so has every property proved of their runs.
*/
module Gnfsd {
  import opened Bytes
  import opened Nfs
  import Drc
  import Handlers
  import Handles
  import Paths
  import Rpc
  import Xdr

  type State<!FS> = Rpc.State<World<FS>>

  // ---------------------------------------------------------------- one datagram on paper

  /** What is done with a call of procedure `p`. */
  function Attended<FS>(x: Export<FS>, p: Proc, s: State<FS>, d: Rpc.Datagram, c: Rpc.Call, pos: nat): (State<FS>, Option<seq<byte>>) {
    var hit := if Cached(p) then Drc.Lookup(s.stores, Rpc.KeyOf(d, c), d.asked) else None;
    if hit.Some? then (s, Some(s.stores[hit.value].reply)) else Ran(p, s, d, c, Perform(x, p, s.world, d.bytes, pos))
  }

  function Ran<FS>(p: Proc, s: State<FS>, d: Rpc.Datagram, c: Rpc.Call, r: Reply<FS>): (State<FS>, Option<seq<byte>>) {
    if r.answer.NoReply? then (Rpc.State(r.world, s.stores), None)
    else
      var reply := Rpc.ReplyHead(c.xid, Rpc.SUCCESS) + AnswerBytes(r.answer);
      (Rpc.State(r.world, if Cached(p) then Drc.Store(s.stores, Drc.Entry(Rpc.KeyOf(d, c), d.stored, reply)) else s.stores), Some(reply))
  }

  lemma DispatchIs<FS>(x: Export<FS>, p: Proc, error: seq<byte>, s: State<FS>, d: Rpc.Datagram, c: Rpc.Call, pos: nat)
    requires |x.root| < Paths.PATH_MAX
    ensures Rpc.Dispatch(Some(RouteOf(x, p)), error, s, d, c, pos) == Attended(x, p, s, d, c, pos)
  {
    EveryReplyFits(x, p, s.world, d.bytes, pos);
  }

  lemma HandleIs<FS>(x: Export<FS>, s: State<FS>, d: Rpc.Datagram, c: Rpc.Call, pos: nat)
    requires |x.root| < Paths.PATH_MAX && Rpc.ParseCall(d.bytes) == Some((c, pos))
    ensures Rpc.Handle(Routes(x), s, d) ==
      match FindProc(PROCS, c)
      case None => (s, Some(Rpc.ErrorReply(Routes(x), c)))
      case Some(p) => Attended(x, p, s, d, c, pos)
  {
    FindRoute(x, c);
    var p := FindProc(PROCS, c);
    if p.Some? { DispatchIs(x, p.value, Rpc.ErrorReply(Routes(x), c), s, d, c, pos); }
  }

  // ---------------------------------------------------------------- headers in place

  ghost function Input(args: Xdr.Cursor): seq<byte>
    requires args.Valid()
    reads args, args.buf
  {
    args.buf[..args.cap]
  }

  method SkipAuth(args: Xdr.Cursor) returns (ok: bool)
    requires args.Valid() && !args.err
    modifies args`pos, args`err
    ensures args.Valid()
    ensures var g := Rpc.SkipAuth(Input(args), old(args.pos));
      ok == g.Some? && (ok ==> args.pos == g.value && !args.err)
  {
    var cred := args.ReadU32();
    if cred.None? { return false; }
    var body := args.ReadBytes();
    if body.None? { return false; }
    var verf := args.ReadU32();
    if verf.None? { return false; }
    body := args.ReadBytes();
    return body.Some?;
  }

  method ParseCall(args: Xdr.Cursor) returns (r: Option<Rpc.Call>)
    requires args.Valid() && !args.err && args.pos == 0
    modifies args`pos, args`err
    ensures args.Valid()
    ensures var g := Rpc.ParseCall(Input(args));
      if g.Some? then r == Some(g.value.0) && args.pos == g.value.1 && !args.err else r == None
  {
    var xid :- args.ReadU32();
    var mtype :- args.ReadU32();
    if mtype != Rpc.RPC_CALL { return None; }
    var rpcvers :- args.ReadU32();
    if rpcvers != Rpc.RPC_VERS { return None; }
    var prog :- args.ReadU32();
    var vers :- args.ReadU32();
    var proc :- args.ReadU32();
    var ok := SkipAuth(args);
    return if ok then Some(Rpc.Call(xid, prog, vers, proc)) else None;
  }

  method PutHead(out: Xdr.Cursor, xid: u32, stat: u32)
    requires out.Valid() && !out.err && out.pos == 0 && out.cap >= 24
    modifies out, out.buf
    ensures out.Valid() && !out.err && out.Done() == Rpc.ReplyHead(xid, stat)
  {
    PutThree(out, xid, 1, 0);
    PutThree(out, 0, 0, stat);
    Six(Xdr.U32Bytes(xid), Xdr.U32Bytes(1), Xdr.U32Bytes(0), Xdr.U32Bytes(stat));
  }

  method PutThree(out: Xdr.Cursor, a: u32, b: u32, c: u32)
    requires out.Valid() && !out.err && out.pos + 12 <= out.cap
    modifies out, out.buf
    ensures out.Valid() && !out.err && out.pos == old(out.pos) + 12
    ensures out.Done() == old(out.Done()) + Xdr.U32Bytes(a) + Xdr.U32Bytes(b) + Xdr.U32Bytes(c)
  {
    var _ := out.WriteU32(a);
    var _ := out.WriteU32(b);
    var _ := out.WriteU32(c);
  }

  lemma Six(a: seq<byte>, b: seq<byte>, z: seq<byte>, s: seq<byte>)
    ensures ([] + a + b + z) + z + z + s == a + b + z + z + z + s
  {
  }

  /** The answer to a call no route serves. */
  method PutError<FS>(out: Xdr.Cursor, x: Export<FS>, c: Rpc.Call, progOk: bool, lo: int, hi: int)
    requires out.Valid() && !out.err && out.pos == 0 && out.cap >= 32
    requires progOk == Rpc.ServesProgram(Routes(x), c)
    requires lo == Rpc.Lowest(Routes(x), c.prog) && hi == Rpc.Highest(Routes(x), c.prog)
    modifies out, out.buf
    ensures out.Valid() && !out.err && out.Done() == Rpc.ErrorReply(Routes(x), c)
  {
    if !progOk {
      PutHead(out, c.xid, Rpc.PROG_UNAVAIL);
      return;
    }
    var here := Rpc.VersionServed(Routes(x), c);
    if here {
      PutHead(out, c.xid, Rpc.PROC_UNAVAIL);
      return;
    }
    PutHead(out, c.xid, Rpc.PROG_MISMATCH);
    var _ := out.WriteU32(lo % 0x1_0000_0000);
    var _ := out.WriteU32(hi % 0x1_0000_0000);
  }

  // ---------------------------------------------------------------- the server

  class Server<FS> {
    const procs: Handlers.Procedures<FS>
    const drc: Drc.Cache

    ghost predicate Valid()
      reads this, procs, procs.table, drc, drc.slots
    {
      procs.Valid() && drc.Valid() && |procs.x.root| < Paths.PATH_MAX
    }

    ghost function Abs(): State<FS>
      reads this, procs, procs.table, drc
    {
      Rpc.State(procs.Now(), drc.stores)
    }

    constructor (x: Export<FS>, fs: FS)
      requires Paths.GoodRoot(x.root)
      ensures Valid() && procs.x == x && Abs() == Rpc.State(World(fs, Handles.Table([], false)), [])
      ensures fresh(procs) && fresh(procs.table) && fresh(drc) && fresh(drc.slots)
    {
      procs := new Handlers.Procedures(x, fs);
      drc := new Drc.Cache();
    }

    /** A call of procedure `p` that is not answered from the cache. */
    method Run(p: Proc, d: Rpc.Datagram, c: Rpc.Call, args: Xdr.Cursor) returns (reply: Option<seq<byte>>)
      requires Valid() && args.Valid() && !args.err && args.buf[..args.cap] == d.bytes
      modifies procs, procs.table, drc, drc.slots, args
      ensures Valid()
      ensures (Abs(), reply) == Ran(p, old(Abs()), d, c, Perform(procs.x, p, old(procs.Now()), d.bytes, old(args.pos)))
    {
      var outbuf := new byte[Rpc.BUFSZ];
      var out := new Xdr.Cursor(outbuf, Rpc.BUFSZ);
      PutHead(out, c.xid, Rpc.SUCCESS);
      var drop := procs.Perform(p, args, out);
      if drop { return None; }
      reply := Some(outbuf[..out.pos]);
      if Cached(p) {
        drc.Put(Rpc.KeyOf(d, c), reply.value, d.stored);
      }
    }

    /** One datagram. */
    method HandleOne(d: Rpc.Datagram) returns (reply: Option<seq<byte>>)
      requires Valid() && Drc.OneLive(drc.stores, d.asked) && |d.bytes| <= Rpc.BUFSZ
      modifies procs, procs.table, drc, drc.slots
      ensures Valid()
      ensures (Abs(), reply) == Rpc.Handle(Routes(procs.x), old(Abs()), d)
    {
      var inbuf := new byte[|d.bytes|](i requires 0 <= i < |d.bytes| => d.bytes[i]);
      assert inbuf[..|d.bytes|] == d.bytes;
      var args := new Xdr.Cursor(inbuf, |d.bytes|);
      var call := ParseCall(args);
      if call.None? { return None; }
      var c := call.value;
      ghost var pos := args.pos;
      HandleIs(procs.x, Abs(), d, c, pos);
      FindRoute(procs.x, c);
      var found, progOk, lo, hi := Rpc.Scan(Routes(procs.x), c);
      if found.None? {
        reply := Refuse(c, progOk, lo, hi);
        return;
      }
      var p := FindProc(PROCS, c).value;
      if Cached(p) {
        var hit := drc.Find(Rpc.KeyOf(d, c), d.asked);
        if hit.Some? { return Some(hit.value.reply); }
      }
      reply := Run(p, d, c, args);
    }

    method Refuse(c: Rpc.Call, progOk: bool, lo: int, hi: int) returns (reply: Option<seq<byte>>)
      requires progOk == Rpc.ServesProgram(Routes(procs.x), c)
      requires lo == Rpc.Lowest(Routes(procs.x), c.prog) && hi == Rpc.Highest(Routes(procs.x), c.prog)
      ensures reply == Some(Rpc.ErrorReply(Routes(procs.x), c))
    {
      var outbuf := new byte[Rpc.BUFSZ];
      var out := new Xdr.Cursor(outbuf, Rpc.BUFSZ);
      PutError(out, procs.x, c, progOk, lo, hi);
      return Some(outbuf[..out.pos]);
    }
  }

  /** The serving loop over any datagrams: the replies and the final state are those of the routes' run. */
  method Serve<FS>(x: Export<FS>, fs: FS, ds: seq<Rpc.Datagram>) returns (final: FS, replies: seq<Option<seq<byte>>>)
    requires Paths.GoodRoot(x.root) && Rpc.Clock(ds) && forall d :: d in ds ==> |d.bytes| <= Rpc.BUFSZ
    ensures var start := Rpc.State(World(fs, Handles.Table([], false)), []);
      final == Rpc.Run(Routes(x), start, ds).world.fs && replies == Rpc.Replies(Routes(x), start, ds)
  {
    var server := new Server(x, fs);
    replies := [];
    ghost var s0 := Rpc.State(World(fs, Handles.Table([], false)), []);
    for i := 0 to |ds|
      invariant server.Valid() && server.procs.x == x && fresh(server)
      invariant fresh(server.procs) && fresh(server.procs.table) && fresh(server.drc) && fresh(server.drc.slots)
      invariant server.Abs() == Rpc.Run(Routes(x), s0, ds[..i])
      invariant replies == Rpc.Replies(Routes(x), s0, ds[..i])
    {
      Rpc.RunOneLive(Routes(x), s0, ds, i, ds[i].asked);
      Rpc.RunSnoc(Routes(x), s0, ds, i);
      Rpc.RepliesSnoc(Routes(x), s0, ds, i);
      var reply := server.HandleOne(ds[i]);
      replies := replies + [reply];
    }
    assert ds[..|ds|] == ds;
    final := server.procs.fs;
  }
}
