/**
  ONC RPC dispatch (RFC 1057) over UDP, and what the duplicate request cache guarantees
  over whole runs of the server. `Handle` is one datagram as a function of the state,
  generic in the state `W` that the procedures work on; the running server is in Gnfsd.
*/
module Rpc {
  import opened Bytes
  import opened Drc
  import Xdr

  const RPC_CALL := 0
  const RPC_VERS := 2
  const SUCCESS := 0
  const PROG_UNAVAIL := 1
  const PROG_MISMATCH := 2
  const PROC_UNAVAIL := 3
  const BUFSZ := 65536

  datatype Call = Call(xid: u32, prog: u32, vers: u32, proc: u32)

  /** A procedure reads its arguments at a position of the datagram; None asks to drop the call. */
  datatype Handled<W> = Handled(world: W, body: Option<seq<byte>>)
  datatype Route<!W> = Route(prog: u32, vers: u32, proc: u32, fn: (W, seq<byte>, nat) -> Handled<W>, cache: bool)

  /** A datagram, its sender, and the clock when the cache is asked and when a reply is stored. */
  datatype Datagram = Datagram(addr: u32, port: int, bytes: seq<byte>, asked: int, stored: int)

  datatype State<W> = State(world: W, stores: seq<Entry>)

  // ---------------------------------------------------------------- one datagram

  /** The call header; the position returned is that of the arguments. */
  function ParseCall(s: seq<byte>): Option<(Call, nat)> {
    var (xid, p0) :- Xdr.GetU32(s, 0);
    var (mtype, p1) :- Xdr.GetU32(s, p0);
    if mtype != RPC_CALL then None else
    var (rpcvers, p2) :- Xdr.GetU32(s, p1);
    if rpcvers != RPC_VERS then None else
    var (prog, p3) :- Xdr.GetU32(s, p2);
    var (vers, p4) :- Xdr.GetU32(s, p3);
    var (proc, p5) :- Xdr.GetU32(s, p4);
    var p6 :- SkipAuth(s, p5);
    Some((Call(xid, prog, vers, proc), p6))
  }

  /** Credentials and verifier, each a flavor and a body. */
  function SkipAuth(s: seq<byte>, pos: nat): Option<nat> {
    var (_, p1) :- Xdr.GetU32(s, pos);
    var (_, p2) :- Xdr.GetBytes(s, p1);
    var (_, p3) :- Xdr.GetU32(s, p2);
    var (_, p4) :- Xdr.GetBytes(s, p3);
    Some(p4)
  }

  function ReplyHead(xid: u32, stat: u32): (s: seq<byte>)
    ensures |s| == 24
  {
    Xdr.U32Bytes(xid) + Xdr.U32Bytes(1) + Xdr.U32Bytes(0) + Xdr.U32Bytes(0) + Xdr.U32Bytes(0) + Xdr.U32Bytes(stat)
  }

  predicate Matches<W>(r: Route<W>, c: Call) {
    r.prog == c.prog && r.vers == c.vers && r.proc == c.proc
  }

  /** The route that serves a call: the last one that matches. */
  function FindRoute<W>(routes: seq<Route<W>>, c: Call): (r: Option<Route<W>>)
    ensures r.Some? ==> r.value in routes && Matches(r.value, c)
    ensures r.None? ==> forall q :: q in routes ==> !Matches(q, c)
  {
    if routes == [] then None
    else if Matches(routes[|routes| - 1], c) then Some(routes[|routes| - 1])
    else FindRoute(routes[..|routes| - 1], c)
  }

  function Lowest<W>(routes: seq<Route<W>>, prog: u32): int {
    if routes == [] then 0x7fff_ffff
    else
      var lo, r := Lowest(routes[..|routes| - 1], prog), routes[|routes| - 1];
      if r.prog == prog && r.vers < lo then r.vers else lo
  }

  function Highest<W>(routes: seq<Route<W>>, prog: u32): int {
    if routes == [] then 0
    else
      var hi, r := Highest(routes[..|routes| - 1], prog), routes[|routes| - 1];
      if r.prog == prog && r.vers > hi then r.vers else hi
  }

  predicate ServesProgram<W>(routes: seq<Route<W>>, c: Call) {
    exists i :: 0 <= i < |routes| && routes[i].prog == c.prog
  }

  predicate ServesVersion<W>(routes: seq<Route<W>>, c: Call) {
    exists i :: 0 <= i < |routes| && routes[i].prog == c.prog && routes[i].vers == c.vers
  }

  function ErrorReply<W>(routes: seq<Route<W>>, c: Call): seq<byte> {
    if !ServesProgram(routes, c) then ReplyHead(c.xid, PROG_UNAVAIL)
    else if !ServesVersion(routes, c) then
      ReplyHead(c.xid, PROG_MISMATCH) + Xdr.U32Bytes(Lowest(routes, c.prog) % 0x1_0000_0000) + Xdr.U32Bytes(Highest(routes, c.prog) % 0x1_0000_0000)
    else ReplyHead(c.xid, PROC_UNAVAIL)
  }

  function KeyOf(d: Datagram, c: Call): Key { Key(d.addr, d.port, c.xid) }

  /** The cached call a datagram carries, with its key, route and argument position. */
  function CachedCall<W>(routes: seq<Route<W>>, d: Datagram): Option<(Key, Route<W>, nat, u32)> {
    var (c, pos) :- ParseCall(d.bytes);
    var r :- FindRoute(routes, c);
    if r.cache then Some((KeyOf(d, c), r, pos, c.xid)) else None
  }

  /** Run a procedure and frame its reply. */
  function Execute<W>(r: Route<W>, w: W, s: seq<byte>, pos: nat, xid: u32): (W, Option<seq<byte>>) {
    var h := r.fn(w, s, pos);
    (h.world, match h.body
              case None => None
              case Some(b) => if 24 + |b| > BUFSZ then None else Some(ReplyHead(xid, SUCCESS) + b))
  }

  function Handle<W>(routes: seq<Route<W>>, s: State<W>, d: Datagram): (State<W>, Option<seq<byte>>) {
    match ParseCall(d.bytes)
    case None => (s, None)
    case Some((c, pos)) => Dispatch(FindRoute(routes, c), ErrorReply(routes, c), s, d, c, pos)
  }

  /** Answer a call from the cache, by running its procedure, or with an error when no route serves it. */
  function Dispatch<W>(found: Option<Route<W>>, error: seq<byte>, s: State<W>, d: Datagram, c: Call, pos: nat)
    : (State<W>, Option<seq<byte>>)
  {
    match found
    case None => (s, Some(error))
    case Some(r) =>
      var hit := if r.cache then Lookup(s.stores, KeyOf(d, c), d.asked) else None;
      if hit.Some? then (s, Some(s.stores[hit.value].reply))
      else
        var (w, reply) := Execute(r, s.world, d.bytes, pos, c.xid);
        var stores := if r.cache && reply.Some? then Store(s.stores, Entry(KeyOf(d, c), d.stored, reply.value)) else s.stores;
        (State(w, stores), reply)
  }

  // ---------------------------------------------------------------- runs

  function Run<W>(routes: seq<Route<W>>, s: State<W>, ds: seq<Datagram>): State<W> {
    if ds == [] then s else Handle(routes, Run(routes, s, ds[..|ds| - 1]), ds[|ds| - 1]).0
  }

  function ReplyTo<W>(routes: seq<Route<W>>, s: State<W>, ds: seq<Datagram>, i: nat): Option<seq<byte>>
    requires i < |ds|
  {
    Handle(routes, Run(routes, s, ds[..i]), ds[i]).1
  }

  /** The clock never goes back. */
  predicate Clock(ds: seq<Datagram>) {
    && (forall i :: 0 <= i < |ds| ==> ds[i].asked <= ds[i].stored)
    && (forall i, j :: 0 <= i < j < |ds| ==> ds[i].stored <= ds[j].asked)
  }

  /** Datagram `i` carried a cached call that was answered from the cache. */
  predicate Replayed<W>(routes: seq<Route<W>>, s: State<W>, ds: seq<Datagram>, i: nat)
    requires i < |ds|
  {
    var call := CachedCall(routes, ds[i]);
    call.Some? && Lookup(Run(routes, s, ds[..i]).stores, call.value.0, ds[i].asked).Some?
  }

  /** Datagram `i` carried a cached call that ran and whose reply went into the cache. */
  predicate Stored<W>(routes: seq<Route<W>>, s: State<W>, ds: seq<Datagram>, i: nat)
    requires i < |ds|
  {
    && CachedCall(routes, ds[i]).Some?
    && !Replayed(routes, s, ds, i)
    && ReplyTo(routes, s, ds, i).Some?
    && |ReplyTo(routes, s, ds, i).value| <= REPLY_MAX
  }

  /** The same sender, and the same transaction number: the first word of a call. */
  predicate SameTransaction(d: Datagram, e: Datagram) {
    d.addr == e.addr && d.port == e.port && Xdr.GetU32(d.bytes, 0) == Xdr.GetU32(e.bytes, 0)
  }

  /** The cache tells two calls apart exactly by sender and transaction. */
  lemma KeysTell<W>(routes: seq<Route<W>>, d: Datagram, e: Datagram)
    requires CachedCall(routes, d).Some? && CachedCall(routes, e).Some?
    ensures CachedCall(routes, d).value.0 == CachedCall(routes, e).value.0 <==> SameTransaction(d, e)
  {
  }

  /** How many replies had been stored before datagram `i`. */
  function Stores<W>(routes: seq<Route<W>>, s: State<W>, ds: seq<Datagram>, i: nat): nat
    requires i <= |ds|
  {
    |Run(routes, s, ds[..i]).stores|
  }

  /**
    Datagram `j` repeats `i`: the same sender and transaction, at most 30 seconds after
    the reply to `i` was stored and with at most 255 replies stored since.
  */
  predicate Repeats<W>(routes: seq<Route<W>>, s: State<W>, ds: seq<Datagram>, i: nat, j: nat)
    requires i < j < |ds|
  {
    && Stored(routes, s, ds, i)
    && CachedCall(routes, ds[j]).Some?
    && SameTransaction(ds[i], ds[j])
    && ds[j].asked - ds[i].stored <= 30
    && Stores(routes, s, ds, j) - Stores(routes, s, ds, i) <= 256
  }

  // What a step does to the cache.

  lemma HandleStores<W>(routes: seq<Route<W>>, s: State<W>, d: Datagram)
    ensures var s1 := Handle(routes, s, d).0; var call := CachedCall(routes, d); var reply := Handle(routes, s, d).1;
      if call.Some? && Lookup(s.stores, call.value.0, d.asked).None? && reply.Some?
      then s1.stores == Store(s.stores, Entry(call.value.0, d.stored, reply.value))
      else s1.stores == s.stores
    ensures var call := CachedCall(routes, d);
      call.Some? && Lookup(s.stores, call.value.0, d.asked).Some? ==>
      Handle(routes, s, d) == (s, Some(s.stores[Lookup(s.stores, call.value.0, d.asked).value].reply))
  {
  }

  lemma RunSnoc<W>(routes: seq<Route<W>>, s: State<W>, ds: seq<Datagram>, i: nat)
    requires i < |ds|
    ensures Run(routes, s, ds[..i + 1]) == Handle(routes, Run(routes, s, ds[..i]), ds[i]).0
  {
    assert ds[..i + 1][..i] == ds[..i];
  }

  /** Stores only ever grow at the end. */
  lemma {:induction false} StoresGrow<W>(routes: seq<Route<W>>, s: State<W>, ds: seq<Datagram>, i: nat, j: nat)
    requires i <= j <= |ds|
    ensures Run(routes, s, ds[..i]).stores <= Run(routes, s, ds[..j]).stores
    decreases j
  {
    if i < j {
      StoresGrow(routes, s, ds, i, j - 1);
      RunSnoc(routes, s, ds, j - 1);
      HandleStores(routes, Run(routes, s, ds[..j - 1]), ds[j - 1]);
    }
  }

  lemma StoredAppends<W>(routes: seq<Route<W>>, s: State<W>, ds: seq<Datagram>, i: nat)
    requires i < |ds|
    ensures if Stored(routes, s, ds, i)
      then Run(routes, s, ds[..i + 1]).stores == Run(routes, s, ds[..i]).stores +
           [Entry(CachedCall(routes, ds[i]).value.0, ds[i].stored, ReplyTo(routes, s, ds, i).value)]
      else Run(routes, s, ds[..i + 1]).stores == Run(routes, s, ds[..i]).stores
  {
    RunSnoc(routes, s, ds, i);
    HandleStores(routes, Run(routes, s, ds[..i]), ds[i]);
  }

  /** In every run from an empty cache, at every later time, each key has at most one live reply in reach. */
  lemma {:induction false} RunOneLive<W>(routes: seq<Route<W>>, s: State<W>, ds: seq<Datagram>, n: nat, now: int)
    requires s.stores == [] && Clock(ds) && n <= |ds|
    requires n > 0 ==> ds[n - 1].stored <= now
    ensures OneLive(Run(routes, s, ds[..n]).stores, now)
  {
    if n > 0 {
      var d, s0 := ds[n - 1], Run(routes, s, ds[..n - 1]);
      RunOneLive(routes, s, ds, n - 1, d.asked);
      RunSnoc(routes, s, ds, n - 1);
      HandleStores(routes, s0, d);
      var call, reply := CachedCall(routes, d), Handle(routes, s0, d).1;
      if call.Some? && Lookup(s0.stores, call.value.0, d.asked).None? && reply.Some? {
        StoreKeepsOneLive(s0.stores, Entry(call.value.0, d.stored, reply.value), d.asked, now);
      }
    }
  }

  lemma LastStore<W>(routes: seq<Route<W>>, s: State<W>, ds: seq<Datagram>, i: nat, k: nat)
    requires i < |ds| && Stores(routes, s, ds, i) <= k < Stores(routes, s, ds, i + 1)
    ensures Stored(routes, s, ds, i) && Stores(routes, s, ds, i) == k
    ensures Run(routes, s, ds[..i + 1]).stores[k]
         == Entry(CachedCall(routes, ds[i]).value.0, ds[i].stored, ReplyTo(routes, s, ds, i).value)
  {
    StoredAppends(routes, s, ds, i);
  }

  /** Every stored reply came from exactly one datagram of the run. */
  lemma {:induction false} StoreOrigin<W>(routes: seq<Route<W>>, s: State<W>, ds: seq<Datagram>, n: nat, k: nat) returns (i: nat)
    requires s.stores == [] && n <= |ds| && k < Stores(routes, s, ds, n)
    ensures i < n && Stored(routes, s, ds, i) && Stores(routes, s, ds, i) == k
    ensures Run(routes, s, ds[..n]).stores[k]
         == Entry(CachedCall(routes, ds[i]).value.0, ds[i].stored, ReplyTo(routes, s, ds, i).value)
  {
    assert n > 0;
    StoresGrow(routes, s, ds, n - 1, n);
    if k < Stores(routes, s, ds, n - 1) {
      i := StoreOrigin(routes, s, ds, n - 1, k);
    } else {
      i := n - 1;
      LastStore(routes, s, ds, i, k);
    }
  }

  /** A repeat gets the byte-identical reply and changes nothing at all. */
  lemma RepeatIsReplayed<W>(routes: seq<Route<W>>, s: State<W>, ds: seq<Datagram>, i: nat, j: nat)
    requires s.stores == [] && Clock(ds) && i < j < |ds| && Repeats(routes, s, ds, i, j)
    ensures Replayed(routes, s, ds, j)
    ensures ReplyTo(routes, s, ds, j) == ReplyTo(routes, s, ds, i)
    ensures Run(routes, s, ds[..j + 1]) == Run(routes, s, ds[..j])
  {
    var sj, key := Run(routes, s, ds[..j]), CachedCall(routes, ds[j]).value.0;
    var k := Stores(routes, s, ds, i);
    KeysTell(routes, ds[i], ds[j]);
    StoredAppends(routes, s, ds, i);
    StoresGrow(routes, s, ds, i + 1, j);
    assert sj.stores[k] == Entry(key, ds[i].stored, ReplyTo(routes, s, ds, i).value);
    RunOneLive(routes, s, ds, j, ds[j].asked);
    LookupUnique(sj.stores, key, ds[j].asked, k);
    HandleStores(routes, sj, ds[j]);
    RunSnoc(routes, s, ds, j);
  }

  /**
    The cache answers exactly the repeats: a cached call is replayed if and only if it
    repeats an earlier one, and what it repeats is unique.
  */
  lemma ReplayedIffRepeat<W>(routes: seq<Route<W>>, s: State<W>, ds: seq<Datagram>, j: nat)
    requires s.stores == [] && Clock(ds) && j < |ds|
    ensures Replayed(routes, s, ds, j) <==> exists i :: 0 <= i < j && Repeats(routes, s, ds, i, j)
    ensures forall i, i' :: 0 <= i < j && 0 <= i' < j && Repeats(routes, s, ds, i, j) && Repeats(routes, s, ds, i', j) ==> i == i'
  {
    forall i | 0 <= i < j && Repeats(routes, s, ds, i, j) ensures Replayed(routes, s, ds, j) {
      RepeatIsReplayed(routes, s, ds, i, j);
    }
    if Replayed(routes, s, ds, j) {
      var sj, key := Run(routes, s, ds[..j]), CachedCall(routes, ds[j]).value.0;
      var k := Lookup(sj.stores, key, ds[j].asked).value;
      var i := StoreOrigin(routes, s, ds, j, k);
      KeysTell(routes, ds[i], ds[j]);
      assert Repeats(routes, s, ds, i, j);
    }
    forall i, i' | 0 <= i < j && 0 <= i' < j && Repeats(routes, s, ds, i, j) && Repeats(routes, s, ds, i', j)
      ensures i == i'
    {
      if i < i' {
        SameRepeat(routes, s, ds, i, i', j);
      } else if i' < i {
        SameRepeat(routes, s, ds, i', i, j);
      }
    }
  }

  lemma SameRepeat<W>(routes: seq<Route<W>>, s: State<W>, ds: seq<Datagram>, i: nat, i': nat, j: nat)
    requires s.stores == [] && Clock(ds) && i < i' < j < |ds|
    requires Repeats(routes, s, ds, i, j)
    ensures !Repeats(routes, s, ds, i', j)
  {
    StoresGrow(routes, s, ds, i', j);
    if Repeats(routes, s, ds, i, i') { RepeatIsReplayed(routes, s, ds, i, i'); }
  }

  /**
    At most once: two runs of the procedure for one transaction are more than 30 seconds
    or more than 255 stored replies apart, provided the first run's reply was stored.
  */
  lemma AtMostOnce<W>(routes: seq<Route<W>>, s: State<W>, ds: seq<Datagram>, i: nat, j: nat)
    requires s.stores == [] && Clock(ds) && i < j < |ds|
    requires Stored(routes, s, ds, i) && CachedCall(routes, ds[j]).Some? && !Replayed(routes, s, ds, j)
    requires SameTransaction(ds[i], ds[j])
    ensures ds[j].asked - ds[i].stored > 30 || Stores(routes, s, ds, j) - Stores(routes, s, ds, i) > 256
  {
    if Repeats(routes, s, ds, i, j) {
      RepeatIsReplayed(routes, s, ds, i, j);
    }
  }

  /**
    A call whose sender and transaction no earlier stored call has is answered by running
    its procedure, on the state as it is then, and the reply is its own.
  */
  lemma NewCallRuns<W>(routes: seq<Route<W>>, s: State<W>, ds: seq<Datagram>, j: nat)
    requires s.stores == [] && Clock(ds) && j < |ds| && CachedCall(routes, ds[j]).Some?
    requires forall i :: 0 <= i < j && SameTransaction(ds[i], ds[j]) ==> !Stored(routes, s, ds, i)
    ensures var (_, r, pos, xid) := CachedCall(routes, ds[j]).value; var w := Run(routes, s, ds[..j]).world;
      && !Replayed(routes, s, ds, j)
      && (Run(routes, s, ds[..j + 1]).world, ReplyTo(routes, s, ds, j)) == Execute(r, w, ds[j].bytes, pos, xid)
  {
    ReplayedIffRepeat(routes, s, ds, j);
    RunSnoc(routes, s, ds, j);
  }

  /** A copy of a first call, asked at any time up to 30 seconds after the reply was stored, is a repeat of it. */
  lemma CopyRepeats<W>(routes: seq<Route<W>>, w: W, d: Datagram, later: int)
    requires CachedCall(routes, d).Some? && d.asked <= d.stored <= later <= d.stored + 30
    requires var reply := Handle(routes, State(w, []), d).1; reply.Some? && |reply.value| <= REPLY_MAX
    ensures var s, ds := State(w, []), [d, d.(asked := later, stored := later)];
      Clock(ds) && Repeats(routes, s, ds, 0, 1) && ReplyTo(routes, s, ds, 1) == ReplyTo(routes, s, ds, 0) && Run(routes, s, ds) == Run(routes, s, [d])
  {
    var s, ds := State(w, []), [d, d.(asked := later, stored := later)];
    assert ds[..0] == [] && ds[..1] == [d] && ds[..2] == ds;
    StoredAppends(routes, s, ds, 0);
    RepeatIsReplayed(routes, s, ds, 0, 1);
  }

  // ---------------------------------------------------------------- calls and replies as RFC 1057 lays them out

  /** The item `it` is read at `pos`, and `q` is the position after it. */
  predicate Reads(s: seq<byte>, pos: nat, it: Xdr.Item, q: nat) {
    Xdr.GetItem(s, pos, Xdr.WantOf(it)) == Some((it, q))
  }

  /** Transaction, message type, RPC version, program, version, procedure, credentials and verifier, in this order. */
  predicate CallLaidOut(s: seq<byte>, mtype: u32, rpcvers: u32, c: Call, flavor: u32, cred: seq<byte>, flavor': u32, verf: seq<byte>, p: nat, q: nat) {
    && Reads(s, 0, Xdr.U32(c.xid), 4) && Reads(s, 4, Xdr.U32(mtype), 8) && Reads(s, 8, Xdr.U32(rpcvers), 12)
    && Reads(s, 12, Xdr.U32(c.prog), 16) && Reads(s, 16, Xdr.U32(c.vers), 20) && Reads(s, 20, Xdr.U32(c.proc), 24)
    && Reads(s, 24, Xdr.U32(flavor), 28) && Reads(s, 28, Xdr.Opaque(cred), p)
    && Reads(s, p, Xdr.U32(flavor'), p + 4) && Reads(s, p + 4, Xdr.Opaque(verf), q)
  }

  /** A call of RPC version 2 is read as what it says, whoever sends it; any other message is dropped without a trace. */
  lemma CallReads<W>(routes: seq<Route<W>>, st: State<W>, d: Datagram, mtype: u32, rpcvers: u32, c: Call,
                     flavor: u32, cred: seq<byte>, flavor': u32, verf: seq<byte>, p: nat, q: nat)
    requires CallLaidOut(d.bytes, mtype, rpcvers, c, flavor, cred, flavor', verf, p, q)
    ensures mtype == 0 && rpcvers == 2 ==> ParseCall(d.bytes) == Some((c, q))
    ensures mtype != 0 || rpcvers != 2 ==> Handle(routes, st, d) == (st, None)
  {
    HeaderReads(d.bytes, mtype, rpcvers, c, flavor, cred, flavor', verf, p, q);
  }

  lemma HeaderReads(s: seq<byte>, mtype: u32, rpcvers: u32, c: Call, flavor: u32, cred: seq<byte>, flavor': u32, verf: seq<byte>, p: nat, q: nat)
    requires CallLaidOut(s, mtype, rpcvers, c, flavor, cred, flavor', verf, p, q)
    ensures ParseCall(s) == if mtype == 0 && rpcvers == 2 then Some((c, q)) else None
  {
  }

  /** A message shorter than a call's fixed part is dropped. */
  lemma ShortIsDropped<W>(routes: seq<Route<W>>, st: State<W>, d: Datagram)
    requires |d.bytes| < 40
    ensures Handle(routes, st, d) == (st, None)
  {
  }

  /** The reply has the call's own first word, and is marked a reply. */
  predicate Answers(reply: seq<byte>, call: seq<byte>) {
    Xdr.GetU32(call, 0).Some? && Reads(reply, 0, Xdr.U32(Xdr.GetU32(call, 0).value.0), 4) && Reads(reply, 4, Xdr.U32(1), 8)
  }

  /** Transaction, reply, accepted, no verifier, outcome. */
  predicate ReplyLaidOut(reply: seq<byte>, xid: u32, stat: u32) {
    && Reads(reply, 0, Xdr.U32(xid), 4) && Reads(reply, 4, Xdr.U32(1), 8) && Reads(reply, 8, Xdr.U32(0), 12)
    && Reads(reply, 12, Xdr.U32(0), 16) && Reads(reply, 16, Xdr.Opaque([]), 20) && Reads(reply, 20, Xdr.U32(stat), 24)
  }

  lemma HeadReads(xid: u32, stat: u32, body: seq<byte>)
    ensures ReplyLaidOut(ReplyHead(xid, stat) + body, xid, stat)
  {
    var r := ReplyHead(xid, stat) + body;
    assert r[0..4] == Xdr.U32Bytes(xid) && r[4..8] == Xdr.U32Bytes(1) && r[8..12] == Xdr.U32Bytes(0);
    assert r[12..16] == Xdr.U32Bytes(0) && r[16..20] == Xdr.U32Bytes(0) && r[20..24] == Xdr.U32Bytes(stat);
    Xdr.WordReadsBack(xid, r, 0);
    Xdr.WordReadsBack(1, r, 4);
    Xdr.WordReadsBack(0, r, 8);
    Xdr.WordReadsBack(0, r, 12);
    Xdr.WordReadsBack(0, r, 16);
    Xdr.WordReadsBack(stat, r, 20);
    assert r[20..20] == [];
  }

  /** A procedure's reply is laid out as a success, and its body follows. */
  lemma SuccessIs<W>(r: Route<W>, w: W, s: seq<byte>, pos: nat, xid: u32)
    ensures var h := r.fn(w, s, pos); var (w1, reply) := Execute(r, w, s, pos, xid);
      && w1 == h.world
      && (reply.Some? <==> h.body.Some? && |h.body.value| <= 65512)
      && (reply.Some? ==> ReplyLaidOut(reply.value, xid, 0) && reply.value[24..] == h.body.value)
  {
    var h := r.fn(w, s, pos);
    if h.body.Some? {
      HeadReads(xid, SUCCESS, h.body.value);
      assert (ReplyHead(xid, SUCCESS) + h.body.value)[24..] == h.body.value;
    }
  }

  lemma {:induction false} LowestIs<W>(routes: seq<Route<W>>, prog: u32)
    ensures forall r :: r in routes && r.prog == prog ==> Lowest(routes, prog) <= r.vers <= Highest(routes, prog)
    ensures Lowest(routes, prog) == 0x7fff_ffff || exists r :: r in routes && r.prog == prog && r.vers == Lowest(routes, prog)
    ensures Highest(routes, prog) == 0 || exists r :: r in routes && r.prog == prog && r.vers == Highest(routes, prog)
  {
    if routes != [] {
      LowestIs(routes[..|routes| - 1], prog);
      assert forall r :: r in routes <==> r in routes[..|routes| - 1] || r == routes[|routes| - 1];
    }
  }

  /** A call no route serves: which of the three errors it gets, and the versions it is told of. */
  lemma UnservedIs<W>(routes: seq<Route<W>>, st: State<W>, d: Datagram, c: Call, pos: nat)
    requires ParseCall(d.bytes) == Some((c, pos)) && forall r :: r in routes ==> !Matches(r, c)
    requires forall r :: r in routes ==> r.vers <= 0x7fff_ffff
    ensures var (st1, reply) := Handle(routes, st, d);
      st1 == st && reply.Some?
      && if forall r :: r in routes ==> r.prog != c.prog then ReplyLaidOut(reply.value, c.xid, 1) && |reply.value| == 24
         else if exists r :: r in routes && r.prog == c.prog && r.vers == c.vers then ReplyLaidOut(reply.value, c.xid, 3) && |reply.value| == 24
         else ReplyLaidOut(reply.value, c.xid, 2) && |reply.value| == 32 && Versions(routes, c.prog, reply.value)
  {
    FindRouteNone(routes, c);
    ServesIs(routes, c);
    if !ServesProgram(routes, c) {
      PlainError(c.xid, PROG_UNAVAIL);
    } else if ServesVersion(routes, c) {
      PlainError(c.xid, PROC_UNAVAIL);
    } else {
      VersionsRead(routes, c);
    }
  }

  lemma PlainError(xid: u32, stat: u32)
    ensures ReplyLaidOut(ReplyHead(xid, stat), xid, stat)
  {
    HeadReads(xid, stat, []);
    assert ReplyHead(xid, stat) + [] == ReplyHead(xid, stat);
  }

  lemma FindRouteNone<W>(routes: seq<Route<W>>, c: Call)
    requires forall r :: r in routes ==> !Matches(r, c)
    ensures FindRoute(routes, c).None?
  {
  }

  lemma ServesIs<W>(routes: seq<Route<W>>, c: Call)
    ensures ServesProgram(routes, c) <==> exists r :: r in routes && r.prog == c.prog
    ensures ServesVersion(routes, c) <==> exists r :: r in routes && r.prog == c.prog && r.vers == c.vers
  {
    forall r | r in routes ensures r.prog == c.prog ==> ServesProgram(routes, c) && (r.vers == c.vers ==> ServesVersion(routes, c)) {
      var i :| 0 <= i < |routes| && routes[i] == r;
    }
    if ServesProgram(routes, c) {
      var i :| 0 <= i < |routes| && routes[i].prog == c.prog;
      assert routes[i] in routes;
    }
    if ServesVersion(routes, c) {
      var i :| 0 <= i < |routes| && routes[i].prog == c.prog && routes[i].vers == c.vers;
      assert routes[i] in routes;
    }
  }

  /** The words after the head are the least and the greatest version served. */
  ghost predicate Versions<W>(routes: seq<Route<W>>, prog: u32, reply: seq<byte>) {
    exists lo: u32, hi: u32 :: Reads(reply, 24, Xdr.U32(lo), 28) && Reads(reply, 28, Xdr.U32(hi), 32) && Extremes(routes, prog, lo, hi)
  }

  ghost predicate Extremes<W>(routes: seq<Route<W>>, prog: u32, lo: u32, hi: u32) {
    && (forall r :: r in routes && r.prog == prog ==> lo <= r.vers <= hi)
    && (exists r :: r in routes && r.prog == prog && r.vers == lo) && (exists r :: r in routes && r.prog == prog && r.vers == hi)
  }

  lemma ServedExtremes<W>(routes: seq<Route<W>>, c: Call)
    requires ServesProgram(routes, c) && forall r :: r in routes ==> r.vers <= 0x7fff_ffff
    ensures 0 <= Lowest(routes, c.prog) <= 0x7fff_ffff && 0 <= Highest(routes, c.prog) <= 0x7fff_ffff
    ensures Extremes(routes, c.prog, Lowest(routes, c.prog), Highest(routes, c.prog))
  {
    LowestIs(routes, c.prog);
    ServesIs(routes, c);
    var r :| r in routes && r.prog == c.prog;
    assert Lowest(routes, c.prog) <= r.vers <= Highest(routes, c.prog);
  }

  lemma VersionsRead<W>(routes: seq<Route<W>>, c: Call)
    requires ServesProgram(routes, c) && !ServesVersion(routes, c) && forall r :: r in routes ==> r.vers <= 0x7fff_ffff
    ensures ReplyLaidOut(ErrorReply(routes, c), c.xid, 2) && |ErrorReply(routes, c)| == 32 && Versions(routes, c.prog, ErrorReply(routes, c))
  {
    ServedExtremes(routes, c);
    var lo: u32, hi: u32 := Lowest(routes, c.prog), Highest(routes, c.prog);
    MismatchIs(routes, c, lo, hi);
    TwoMore(c.xid, lo, hi, ErrorReply(routes, c));
  }

  lemma MismatchIs<W>(routes: seq<Route<W>>, c: Call, lo: u32, hi: u32)
    requires ServesProgram(routes, c) && !ServesVersion(routes, c) && lo == Lowest(routes, c.prog) && hi == Highest(routes, c.prog)
    ensures ErrorReply(routes, c) == ReplyHead(c.xid, PROG_MISMATCH) + Xdr.U32Bytes(lo) + Xdr.U32Bytes(hi)
  {
    WordFits(lo);
    WordFits(hi);
  }

  lemma WordFits(v: u32)
    ensures v % 0x1_0000_0000 == v
  {
  }

  lemma TwoMore(xid: u32, lo: u32, hi: u32, r: seq<byte>)
    requires r == ReplyHead(xid, PROG_MISMATCH) + Xdr.U32Bytes(lo) + Xdr.U32Bytes(hi)
    ensures ReplyLaidOut(r, xid, 2) && |r| == 32 && Reads(r, 24, Xdr.U32(lo), 28) && Reads(r, 28, Xdr.U32(hi), 32)
  {
    Assoc(ReplyHead(xid, PROG_MISMATCH), Xdr.U32Bytes(lo), Xdr.U32Bytes(hi));
    HeadReads(xid, PROG_MISMATCH, Xdr.U32Bytes(lo) + Xdr.U32Bytes(hi));
    assert r[24..28] == Xdr.U32Bytes(lo) && r[28..32] == Xdr.U32Bytes(hi);
    Xdr.WordReadsBack(lo, r, 24);
    Xdr.WordReadsBack(hi, r, 28);
  }

  /** Whatever is stored answers the transaction it is stored for. */
  ghost predicate StoresAnswer(stores: seq<Entry>) {
    forall e :: e in stores ==> Reads(e.reply, 0, Xdr.U32(e.key.xid), 4) && Reads(e.reply, 4, Xdr.U32(1), 8)
  }

  lemma ErrorAnswers<W>(routes: seq<Route<W>>, c: Call)
    ensures var r := ErrorReply(routes, c); Reads(r, 0, Xdr.U32(c.xid), 4) && Reads(r, 4, Xdr.U32(1), 8)
  {
    PlainError(c.xid, PROG_UNAVAIL);
    PlainError(c.xid, PROC_UNAVAIL);
    var a, b := Xdr.U32Bytes(Lowest(routes, c.prog) % 0x1_0000_0000), Xdr.U32Bytes(Highest(routes, c.prog) % 0x1_0000_0000);
    Assoc(ReplyHead(c.xid, PROG_MISMATCH), a, b);
    HeadReads(c.xid, PROG_MISMATCH, a + b);
  }

  lemma HandleAnswers<W>(routes: seq<Route<W>>, s: State<W>, d: Datagram)
    requires StoresAnswer(s.stores)
    ensures var (s1, reply) := Handle(routes, s, d); StoresAnswer(s1.stores) && (reply.Some? ==> Answers(reply.value, d.bytes))
  {
    var parsed := ParseCall(d.bytes);
    if parsed.Some? {
      var (c, pos) := parsed.value;
      ErrorAnswers(routes, c);
      var found := FindRoute(routes, c);
      if found.Some? { SuccessIs(found.value, s.world, d.bytes, pos, c.xid); }
    }
  }

  lemma {:induction false} RunStoresAnswer<W>(routes: seq<Route<W>>, s: State<W>, ds: seq<Datagram>, n: nat)
    requires s.stores == [] && n <= |ds|
    ensures StoresAnswer(Run(routes, s, ds[..n]).stores)
  {
    if n > 0 {
      RunStoresAnswer(routes, s, ds, n - 1);
      RunSnoc(routes, s, ds, n - 1);
      HandleAnswers(routes, Run(routes, s, ds[..n - 1]), ds[n - 1]);
    }
  }

  /** In every run, whether a reply is fresh, from the cache or an error, it carries the transaction number of the very datagram it answers. */
  lemma RepliesAnswer<W>(routes: seq<Route<W>>, s: State<W>, ds: seq<Datagram>, i: nat)
    requires s.stores == [] && i < |ds| && ReplyTo(routes, s, ds, i).Some?
    ensures Answers(ReplyTo(routes, s, ds, i).value, ds[i].bytes)
  {
    RunStoresAnswer(routes, s, ds, i);
    HandleAnswers(routes, Run(routes, s, ds[..i]), ds[i]);
  }

  /** The run with every replayed datagram left out. */
  function Without<W>(routes: seq<Route<W>>, s: State<W>, ds: seq<Datagram>): seq<Datagram> {
    if ds == [] then []
    else
      var n := |ds| - 1;
      Without(routes, s, ds[..n]) + (if Replayed(routes, s, ds, n) then [] else [ds[n]])
  }

  function Replies<W>(routes: seq<Route<W>>, s: State<W>, ds: seq<Datagram>): seq<Option<seq<byte>>> {
    if ds == [] then [] else Replies(routes, s, ds[..|ds| - 1]) + [ReplyTo(routes, s, ds, |ds| - 1)]
  }

  /** The replies to the datagrams that were not replayed. */
  function FirstReplies<W>(routes: seq<Route<W>>, s: State<W>, ds: seq<Datagram>): seq<Option<seq<byte>>> {
    if ds == [] then []
    else
      var n := |ds| - 1;
      FirstReplies(routes, s, ds[..n]) + (if Replayed(routes, s, ds, n) then [] else [ReplyTo(routes, s, ds, n)])
  }

  /** Retransmissions leave no trace: without them the server ends in the same state and gives the other datagrams the same replies. */
  lemma {:induction false} RetransmissionsInvisible<W>(routes: seq<Route<W>>, s: State<W>, ds: seq<Datagram>)
    ensures Run(routes, s, Without(routes, s, ds)) == Run(routes, s, ds)
    ensures Replies(routes, s, Without(routes, s, ds)) == FirstReplies(routes, s, ds)
  {
    if ds != [] {
      var n := |ds| - 1;
      var init := ds[..n];
      var kept := Without(routes, s, init);
      RetransmissionsInvisible(routes, s, init);
      assert ds[..n + 1] == ds;
      RunSnoc(routes, s, ds, n);
      HandleStores(routes, Run(routes, s, init), ds[n]);
      if Replayed(routes, s, ds, n) {
        assert Without(routes, s, ds) == kept + [] == kept;
      } else {
        assert Without(routes, s, ds) == kept + [ds[n]];
        assert (kept + [ds[n]])[..|kept|] == kept;
      }
    }
  }

  // ---------------------------------------------------------------- for the running server

  /** One pass over the route table, as the dispatcher makes it. */
  method Scan<W>(routes: seq<Route<W>>, c: Call) returns (found: Option<Route<W>>, progOk: bool, lo: int, hi: int)
    ensures found == FindRoute(routes, c)
    ensures progOk == ServesProgram(routes, c)
    ensures lo == Lowest(routes, c.prog) && hi == Highest(routes, c.prog)
  {
    found, progOk, lo, hi := None, false, 0x7fff_ffff, 0;
    for i := 0 to |routes|
      invariant found == FindRoute(routes[..i], c)
      invariant progOk <==> exists j :: 0 <= j < i && routes[j].prog == c.prog
      invariant lo == Lowest(routes[..i], c.prog) && hi == Highest(routes[..i], c.prog)
    {
      var r := routes[i];
      assert routes[..i + 1][..i] == routes[..i];
      if r.prog == c.prog {
        progOk := true;
        if r.vers < lo { lo := r.vers; }
        if r.vers > hi { hi := r.vers; }
        if r.vers == c.vers && r.proc == c.proc { found := Some(r); }
      }
    }
    assert routes[..|routes|] == routes;
  }

  method VersionServed<W>(routes: seq<Route<W>>, c: Call) returns (here: bool)
    ensures here == ServesVersion(routes, c)
  {
    here := false;
    for i := 0 to |routes|
      invariant here <==> exists j :: 0 <= j < i && routes[j].prog == c.prog && routes[j].vers == c.vers
    {
      if routes[i].prog == c.prog && routes[i].vers == c.vers { here := true; }
    }
  }

  lemma RepliesSnoc<W>(routes: seq<Route<W>>, s: State<W>, ds: seq<Datagram>, i: nat)
    requires i < |ds|
    ensures Replies(routes, s, ds[..i + 1]) == Replies(routes, s, ds[..i]) + [ReplyTo(routes, s, ds, i)]
  {
    assert ds[..i + 1][..i] == ds[..i];
  }
}
