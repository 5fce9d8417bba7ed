/**
  READDIR paging (section 2.2.17 of RFC 1094): the reply is cut at the client's `count`,
  clamped to 4096 bytes, but always carries at least one entry; the cookie of an entry is
  its position in the directory.
*/
module Readdir {
  import opened Bytes
  import opened Paths
  import Xdr

  const RD_MAXDATA := 4096
  const NAMEMAX := 255
  const WRAP := 0x1_0000_0000

  /** A directory entry; no file number when its path is too long or cannot be examined. */
  datatype Ent = Ent(name: Path, ino: Option<u32>)

  /** Bytes of one entry: value-follows, file number, counted name, cookie. */
  function NeedBytes(n: nat): nat { 4 + 4 + (4 + (n + 3) / 4 * 4) + 4 }

  /** The sizes of the entries of a directory. */
  function Sizes(es: seq<Ent>): (need: seq<nat>)
    ensures |need| == |es|
    ensures forall i {:trigger NeedBytes(|es[i].name|)} :: 0 <= i < |es| ==> need[i] == NeedBytes(|es[i].name|)
  {
    seq(|es|, i requires 0 <= i < |es| => NeedBytes(|es[i].name|))
  }

  /**
    The positions put in a reply and where the scan stopped, from position `i` on with
    `used` bytes already taken, for entries of the sizes `need`. The end of the directory
    is a stop like any other.
  */
  function Pick(es: seq<Ent>, need: seq<nat>, i: nat, cookie: nat, cap: nat, used: nat): (r: (seq<nat>, nat))
    requires i <= |es| == |need|
    ensures i <= r.1 <= |es|
    ensures forall k :: k in r.0 ==> i <= k < r.1 && es[k].ino.Some?
    decreases |es| - i
  {
    if i == |es| then ([], i)
    else if i + 1 <= cookie then Pick(es, need, i + 1, cookie, cap, used)
    else if used > 0 && used + need[i] > cap then ([], i)
    else if es[i].ino.None? then Pick(es, need, i + 1, cookie, cap, used)
    else
      var (picks, stop) := Pick(es, need, i + 1, cookie, cap, used + need[i]);
      ([i] + picks, stop)
  }

  function Cap(count: u32): nat { if count > RD_MAXDATA then RD_MAXDATA else count }

  // ---------------------------------------------------------------- every entry once

  /** Positions of the listable entries from `i` on. */
  function Listable(es: seq<Ent>, i: nat): seq<nat>
    requires i <= |es|
    decreases |es| - i
  {
    if i == |es| then [] else (if es[i].ino.Some? then [i] else []) + Listable(es, i + 1)
  }

  lemma {:induction false} PickSkips(es: seq<Ent>, need: seq<nat>, i: nat, cookie: nat, cap: nat)
    requires i <= cookie <= |es| == |need|
    ensures Pick(es, need, i, cookie, cap, 0) == Pick(es, need, cookie, cookie, cap, 0)
    decreases cookie - i
  {
    if i < cookie { PickSkips(es, need, i + 1, cookie, cap); }
  }

  /** What is picked from `i` on and what is left from the stop on are the listable entries; nothing listable lies between the last pick and the stop. */
  ghost predicate Partition(es: seq<Ent>, i: nat, picks: seq<nat>, stop: nat) {
    && i <= stop <= |es|
    && Listable(es, i) == picks + Listable(es, stop)
    && if picks == [] then Listable(es, i) == Listable(es, stop)
       else i <= picks[|picks| - 1] < stop && Listable(es, picks[|picks| - 1] + 1) == Listable(es, stop)
  }

  lemma PartitionCons(es: seq<Ent>, i: nat, picks: seq<nat>, stop: nat)
    requires i < |es| && Partition(es, i + 1, picks, stop)
    ensures es[i].ino.None? ==> Partition(es, i, picks, stop)
    ensures es[i].ino.Some? ==> Partition(es, i, [i] + picks, stop)
  {
    assert [] + Listable(es, i + 1) == Listable(es, i + 1);
    assert [i] + (picks + Listable(es, stop)) == ([i] + picks) + Listable(es, stop);
  }

  lemma {:induction false} PickPartitions(es: seq<Ent>, need: seq<nat>, i: nat, cookie: nat, cap: nat, used: nat)
    requires cookie <= i <= |es| == |need|
    ensures var (picks, stop) := Pick(es, need, i, cookie, cap, used);
      Partition(es, i, picks, stop) && (used == 0 && stop < |es| ==> picks != [])
    decreases |es| - i
  {
    if i == |es| || (used > 0 && used + need[i] > cap) {
      assert [] + Listable(es, i) == Listable(es, i);
    } else {
      var taken := if es[i].ino.None? then used else used + need[i];
      PickPartitions(es, need, i + 1, cookie, cap, taken);
      var (picks, stop) := Pick(es, need, i + 1, cookie, cap, taken);
      PartitionCons(es, i, picks, stop);
    }
  }

  /**
    One call of a client: the count it asks with, how many names the server could read, and
    whether the reading ended in an error; it never stops short without one.
  */
  datatype Ask = Ask(count: u32, seen: nat, failed: bool)

  predicate Possible(es: seq<Ent>, a: Ask) { a.seen <= |es| && (a.seen < |es| ==> a.failed) }

  /** A client's progress: what it has received, the cookie to go on from, and whether it was told the end. */
  datatype Client = Client(got: seq<nat>, cookie: nat, eof: bool)

  function Call(es: seq<Ent>, need: seq<nat>, c: Client, a: Ask): (r: Client)
    requires c.cookie <= |es| == |need| && Possible(es, a)
    ensures r.cookie <= |es|
  {
    if c.eof then c
    else
      var (picks, stop) := Pick(es[..a.seen], need[..a.seen], 0, c.cookie, Cap(a.count), 0);
      assert picks != [] ==> picks[|picks| - 1] in picks;
      Client(c.got + picks, if picks == [] then c.cookie else picks[|picks| - 1] + 1, stop == a.seen && !a.failed)
  }

  function Session(es: seq<Ent>, need: seq<nat>, asks: seq<Ask>): (r: Client)
    requires |es| == |need| && forall a :: a in asks ==> Possible(es, a)
    ensures r.cookie <= |es|
  {
    if asks == [] then Client([], 0, false)
    else Call(es, need, Session(es, need, asks[..|asks| - 1]), asks[|asks| - 1])
  }

  /** What the client has and what it can still ask for are the listing in order; told the end, it has all of it. */
  ghost predicate OnTrack(es: seq<Ent>, c: Client) {
    && c.cookie <= |es|
    && Listable(es, 0) == c.got + Listable(es, c.cookie)
    && (c.eof ==> c.got == Listable(es, 0))
  }

  lemma CallKeeps(es: seq<Ent>, need: seq<nat>, c: Client, a: Ask)
    requires |es| == |need| && Possible(es, a) && OnTrack(es, c)
    ensures OnTrack(es, Call(es, need, c, a))
    ensures !a.failed && !Call(es, need, c, a).eof ==> Call(es, need, c, a).cookie > c.cookie
  {
    if c.eof {
    } else if c.cookie <= a.seen {
      var k, cap, seen, sizes := c.cookie, Cap(a.count), es[..a.seen], need[..a.seen];
      var (p, stop) := Pick(seen, sizes, 0, k, cap, 0);
      PickSkips(seen, sizes, 0, k, cap);
      PickPartitions(seen, sizes, k, k, cap, 0);
      PartitionWhole(es, a.seen, k, p, stop);
      PageKeeps(es, c, p, stop);
    } else {
      NothingSeen(es[..a.seen], need[..a.seen], 0, c.cookie, Cap(a.count));
      assert c.got + [] == c.got;
    }
  }

  lemma PageKeeps(es: seq<Ent>, c: Client, p: seq<nat>, stop: nat)
    requires OnTrack(es, c) && Partition(es, c.cookie, p, stop)
    ensures var next := if p == [] then c.cookie else p[|p| - 1] + 1;
      next <= |es| && Listable(es, 0) == c.got + p + Listable(es, next) && (stop == |es| ==> c.got + p == Listable(es, 0))
  {
    assert c.got + (p + Listable(es, stop)) == c.got + p + Listable(es, stop);
    assert c.got + p + [] == c.got + p;
  }

  lemma {:induction false} NothingSeen(es: seq<Ent>, need: seq<nat>, i: nat, cookie: nat, cap: nat)
    requires i <= |es| == |need| && |es| < cookie
    ensures Pick(es, need, i, cookie, cap, 0) == ([], |es|)
    decreases |es| - i
  {
    if i < |es| { NothingSeen(es, need, i + 1, cookie, cap); }
  }

  /** A page of the first `m` names leaves the rest of the whole directory for later. */
  lemma PartitionWhole(es: seq<Ent>, m: nat, k: nat, p: seq<nat>, stop: nat)
    requires m <= |es| && Partition(es[..m], k, p, stop)
    ensures Partition(es, k, p, stop)
  {
    ListableSplit(es, m, k);
    ListableSplit(es, m, stop);
    if p != [] { ListableSplit(es, m, p[|p| - 1] + 1); }
    assert p + Listable(es[..m], stop) + Listable(es, m) == p + (Listable(es[..m], stop) + Listable(es, m));
  }

  lemma {:induction false} ListableSplit(es: seq<Ent>, m: nat, i: nat)
    requires i <= m <= |es|
    ensures Listable(es, i) == Listable(es[..m], i) + Listable(es, m)
    decreases m - i
  {
    if i < m {
      assert es[..m][i] == es[i];
      ListableSplit(es, m, i + 1);
    }
  }

  /**
    Nothing lost, nothing twice: for every sequence of calls with any counts, read errors
    included, what the client has received followed by what it can still ask for is the
    listing of the directory in order; once it is told the end it has all of it.
  */
  lemma {:induction false} EveryEntryOnce(es: seq<Ent>, need: seq<nat>, asks: seq<Ask>)
    requires |es| == |need| && forall a :: a in asks ==> Possible(es, a)
    ensures OnTrack(es, Session(es, need, asks))
  {
    if asks == [] {
      assert [] + Listable(es, 0) == Listable(es, 0);
    } else {
      EveryEntryOnce(es, need, asks[..|asks| - 1]);
      CallKeeps(es, need, Session(es, need, asks[..|asks| - 1]), asks[|asks| - 1]);
    }
  }

  /** Without read errors every call either ends the listing or moves the cookie on, so the end comes. */
  lemma {:induction false} EndIsReached(es: seq<Ent>, need: seq<nat>, asks: seq<Ask>)
    requires |es| == |need| && forall a :: a in asks ==> a.seen == |es| && !a.failed
    ensures Session(es, need, asks).eof || Session(es, need, asks).cookie >= |asks|
    ensures |asks| > |es| ==> Session(es, need, asks).eof && Session(es, need, asks).got == Listable(es, 0)
  {
    EveryEntryOnce(es, need, asks);
    if asks != [] {
      var init := asks[..|asks| - 1];
      EndIsReached(es, need, init);
      EveryEntryOnce(es, need, init);
      CallKeeps(es, need, Session(es, need, init), asks[|asks| - 1]);
    }
  }

  // ---------------------------------------------------------------- sizes

  function EntryBytes(e: Ent, i: nat): (s: seq<byte>)
    requires e.ino.Some? && |e.name| < WRAP
  {
    Xdr.U32Bytes(1) + Xdr.U32Bytes(e.ino.value) + Xdr.OpaqueBytes(e.name) + Xdr.U32Bytes((i + 1) % WRAP)
  }

  /** The size the server reckons with is the size written. */
  lemma EntrySize(e: Ent, i: nat)
    requires e.ino.Some? && |e.name| < WRAP
    ensures |EntryBytes(e, i)| == NeedBytes(|e.name|)
    ensures |e.name| <= NAMEMAX ==> NeedBytes(|e.name|) <= 272
  {
    Rounded(|e.name|);
  }

  lemma Rounded(n: nat)
    ensures n + Xdr.Pad(n) == (n + 3) / 4 * 4
  {
  }

  predicate Nameable(es: seq<Ent>) {
    forall e :: e in es ==> |e.name| <= NAMEMAX
  }

  /** The encodings of the listable entries of a directory. */
  function Encodings(es: seq<Ent>): (parts: seq<seq<byte>>)
    requires Nameable(es)
    ensures |parts| == |es|
    ensures forall k {:trigger EntryBytes(es[k], k)} :: 0 <= k < |es| && es[k].ino.Some? ==> |es[k].name| <= NAMEMAX && parts[k] == EntryBytes(es[k], k)
  {
    assert forall k :: 0 <= k < |es| ==> es[k] in es;
    seq(|es|, k requires 0 <= k < |es| => if es[k].ino.Some? then EntryBytes(es[k], k) else [])
  }

  /** The parts chosen, in order. */
  function Blocks(parts: seq<seq<byte>>, picks: seq<nat>): seq<seq<byte>> {
    seq(|picks|, i requires 0 <= i < |picks| => if picks[i] < |parts| then parts[picks[i]] else [])
  }

  /** The chosen parts, one after the other. */
  function Page(parts: seq<seq<byte>>, picks: seq<nat>): seq<byte> { Flatten(Blocks(parts, picks)) }

  function Limit(count: u32): nat { if Cap(count) > 272 then Cap(count) else 272 }

  lemma PageSnoc(parts: seq<seq<byte>>, picks: seq<nat>, k: nat)
    requires k < |parts|
    ensures Page(parts, picks + [k]) == Page(parts, picks) + parts[k]
  {
    FlattenSnoc(Blocks(parts, picks), parts[k]);
    assert Blocks(parts, picks + [k]) == Blocks(parts, picks) + [parts[k]];
  }

  /** Parts of the sizes `need`, none of them larger than the largest entry. */
  ghost predicate Sized(es: seq<Ent>, parts: seq<seq<byte>>, need: seq<nat>) {
    && |parts| == |es| == |need|
    && forall i {:trigger need[i]} :: 0 <= i < |es| ==> need[i] <= 272 && (es[i].ino.Some? ==> |parts[i]| == need[i])
  }

  lemma EncodingsSized(es: seq<Ent>)
    requires Nameable(es)
    ensures Sized(es, Encodings(es), Sizes(es))
  {
    var need := Sizes(es);
    forall i {:trigger need[i]} | 0 <= i < |es| ensures need[i] <= 272 && (es[i].ino.Some? ==> |Encodings(es)[i]| == need[i]) {
      assert es[i] in es && need[i] == NeedBytes(|es[i].name|);
      Rounded(|es[i].name|);
      if es[i].ino.Some? { EntrySize(es[i], i); }
    }
  }

  /** The reply to a call that finds the entries `es`, reading having ended in an error or not. */
  function ReplyBody(es: seq<Ent>, failed: bool, cookie: u32, count: u32): seq<byte>
    requires Nameable(es)
  {
    var (picks, stop) := Pick(es, Sizes(es), 0, cookie, Cap(count), 0);
    Xdr.U32Bytes(0) + Page(Encodings(es), picks) + Xdr.U32Bytes(0) + Xdr.U32Bytes(if stop == |es| && !failed then 1 else 0)
  }

  /** What is picked never takes more than the limit. */
  lemma {:induction false} PickFits(es: seq<Ent>, parts: seq<seq<byte>>, need: seq<nat>, i: nat, cookie: nat, cap: nat, used: nat)
    requires Sized(es, parts, need) && i <= |es| && cap <= RD_MAXDATA && used <= RD_MAXDATA
    ensures used + |Page(parts, Pick(es, need, i, cookie, cap, used).0)| <= RD_MAXDATA
    decreases |es| - i
  {
    if i == |es| || (i + 1 > cookie && used > 0 && used + need[i] > cap) {
      PageOfNone(parts);
    } else if i + 1 <= cookie || es[i].ino.None? {
      PickFits(es, parts, need, i + 1, cookie, cap, used);
    } else {
      PickFits(es, parts, need, i + 1, cookie, cap, used + need[i]);
      PageCons(parts, i, Pick(es, need, i + 1, cookie, cap, used + need[i]).0);
    }
  }

  function Sum(need: seq<nat>, picks: seq<nat>): nat {
    if picks == [] then 0 else (if picks[0] < |need| then need[picks[0]] else 0) + Sum(need, picks[1..])
  }

  /** The scan goes on as long as the next entry fits, and past the cap only for the first. */
  ghost predicate Tight(es: seq<Ent>, need: seq<nat>, cap: nat, used: nat, picks: seq<nat>, stop: nat) {
    && stop <= |es| == |need|
    && (used + Sum(need, picks) <= cap || (used == 0 && |picks| <= 1) || picks == [])
    && (stop < |es| ==> used + Sum(need, picks) + need[stop] > cap && used + Sum(need, picks) > 0)
  }

  lemma TightCons(es: seq<Ent>, need: seq<nat>, cap: nat, used: nat, picks: seq<nat>, stop: nat, k: nat)
    requires k < |need| && need[k] > 0 && (used == 0 || used + need[k] <= cap) && Tight(es, need, cap, used + need[k], picks, stop)
    ensures Tight(es, need, cap, used, [k] + picks, stop)
  {
    assert ([k] + picks)[1..] == picks;
  }

  lemma {:induction false} PickTight(es: seq<Ent>, need: seq<nat>, i: nat, cookie: nat, cap: nat, used: nat)
    requires i <= |es| == |need| && forall k :: 0 <= k < |need| ==> need[k] > 0
    ensures var (picks, stop) := Pick(es, need, i, cookie, cap, used); Tight(es, need, cap, used, picks, stop)
    decreases |es| - i
  {
    if i == |es| || (i + 1 > cookie && used > 0 && used + need[i] > cap) {
    } else if i + 1 <= cookie || es[i].ino.None? {
      PickTight(es, need, i + 1, cookie, cap, used);
    } else {
      PickTight(es, need, i + 1, cookie, cap, used + need[i]);
      var (picks, stop) := Pick(es, need, i + 1, cookie, cap, used + need[i]);
      TightCons(es, need, cap, used, picks, stop, i);
    }
  }

  lemma {:induction false} PageIsSum(es: seq<Ent>, parts: seq<seq<byte>>, need: seq<nat>, picks: seq<nat>)
    requires Sized(es, parts, need) && forall k :: k in picks ==> k < |es| && es[k].ino.Some?
    ensures |Page(parts, picks)| == Sum(need, picks)
  {
    if picks == [] {
      PageOfNone(parts);
    } else {
      assert picks[0] in picks && picks == [picks[0]] + picks[1..];
      assert need[picks[0]] == |parts[picks[0]]|;
      assert forall k :: k in picks[1..] ==> k in picks;
      PageIsSum(es, parts, need, picks[1..]);
      PageCons(parts, picks[0], picks[1..]);
    }
  }

  /**
    A page keeps to the count asked for, and to 4096 bytes, unless it is a single entry; and
    it is not cut short: the scan stops before the end of the directory only at an entry
    with which the page would be over.
  */
  lemma PageFills(es: seq<Ent>, cookie: u32, count: u32)
    requires Nameable(es)
    ensures var (picks, stop) := Pick(es, Sizes(es), 0, cookie, Cap(count), 0); var n := |Page(Encodings(es), picks)|;
      && (|picks| <= 1 || (n <= count && n <= 4096))
      && (stop < |es| ==> n > 0 && (n + NeedBytes(|es[stop].name|) > count || n + NeedBytes(|es[stop].name|) > 4096))
  {
    var need := Sizes(es);
    var (picks, stop) := Pick(es, need, 0, cookie, Cap(count), 0);
    PickTight(es, need, 0, cookie, Cap(count), 0);
    EncodingsSized(es);
    PageIsSum(es, Encodings(es), need, picks);
  }

  lemma PageOfNone(parts: seq<seq<byte>>)
    ensures Page(parts, []) == []
  {
  }

  lemma PageCons(parts: seq<seq<byte>>, k: nat, picks: seq<nat>)
    requires k < |parts|
    ensures Page(parts, [k] + picks) == parts[k] + Page(parts, picks)
  {
    assert Blocks(parts, [k] + picks) == [parts[k]] + Blocks(parts, picks);
    assert ([parts[k]] + Blocks(parts, picks))[1..] == Blocks(parts, picks);
  }

  // ---------------------------------------------------------------- the reply, written in place

  method WriteEntry(out: Xdr.Cursor, e: Ent, i: nat)
    requires out.Valid() && !out.err && e.ino.Some? && |e.name| <= NAMEMAX
    requires out.pos + NeedBytes(|e.name|) <= out.cap
    modifies out, out.buf
    ensures out.Valid() && !out.err
    ensures out.Done() == old(out.Done()) + EntryBytes(e, i)
  {
    Rounded(|e.name|);
    var ok := out.WriteU32(1);
    ok := out.WriteU32(e.ino.value);
    WriteName(out, e.name, (i + 1) % WRAP);
    Regroup(old(out.Done()), Xdr.U32Bytes(1), Xdr.U32Bytes(e.ino.value), Xdr.OpaqueBytes(e.name), Xdr.U32Bytes((i + 1) % WRAP));
  }

  method WriteName(out: Xdr.Cursor, name: Path, cookie: u32)
    requires out.Valid() && !out.err && |name| <= NAMEMAX && out.pos + |Xdr.OpaqueBytes(name)| + 4 <= out.cap
    modifies out, out.buf
    ensures out.Valid() && !out.err
    ensures out.Done() == old(out.Done()) + Xdr.OpaqueBytes(name) + Xdr.U32Bytes(cookie)
  {
    var ok := out.WriteBytes(name);
    ok := out.WriteU32(cookie);
  }

  lemma Regroup(a: seq<byte>, b: seq<byte>, c: seq<byte>, d: seq<byte>, e: seq<byte>)
    ensures a + b + c + d + e == a + (b + c + d + e)
  {
  }

  /** The directory data written so far: the chosen entries, of the size reckoned. */
  ghost predicate Written(es: seq<Ent>, picks: seq<nat>, dirbytes: nat, count: u32, data: seq<byte>)
    requires Nameable(es)
  {
    data == Page(Encodings(es), picks) && dirbytes == |data| <= Limit(count)
  }

  method TakeEntry(out: Xdr.Cursor, es: seq<Ent>, k: nat, dirbytes: nat, count: u32, ghost picks: seq<nat>, ghost start: seq<byte>, ghost data: seq<byte>,
                   ghost picks': seq<nat>, ghost used: nat)
    returns (ghost data': seq<byte>)
    requires out.Valid() && !out.err && Nameable(es) && k < |es| && es[k].ino.Some?
    requires Written(es, picks, dirbytes, count, data) && out.Done() == start + data
    requires dirbytes == 0 || dirbytes + Sizes(es)[k] <= Cap(count)
    requires |start| + Limit(count) <= out.cap && picks' == picks + [k] && used == dirbytes + Sizes(es)[k]
    modifies out, out.buf
    ensures out.Valid() && !out.err && out.Done() == start + data' && Written(es, picks', used, count, data')
  {
    TakeOnPaper(es, picks, k, dirbytes, count, data);
    data' := data + EntryBytes(es[k], k);
    WriteEntry(out, es[k], k);
    Assoc(start, data, EntryBytes(es[k], k));
  }

  lemma TakeOnPaper(es: seq<Ent>, picks: seq<nat>, k: nat, dirbytes: nat, count: u32, data: seq<byte>)
    requires Nameable(es) && k < |es| && es[k].ino.Some?
    requires Written(es, picks, dirbytes, count, data)
    requires dirbytes == 0 || dirbytes + Sizes(es)[k] <= Cap(count)
    ensures |es[k].name| <= NAMEMAX && NeedBytes(|es[k].name|) == Sizes(es)[k] && dirbytes + Sizes(es)[k] <= Limit(count)
    ensures Written(es, picks + [k], dirbytes + Sizes(es)[k], count, data + EntryBytes(es[k], k))
  {
    assert es[k] in es;
    EntrySize(es[k], k);
    PageSnoc(Encodings(es), picks, k);
  }

  /** Whether the entry at `k` lies past the cookie, and its size. */
  method Examine(es: seq<Ent>, k: nat, cookie: u32) returns (past: bool, bytes: nat)
    requires k < |es| < WRAP
    ensures past == !(k + 1 <= cookie) && bytes == Sizes(es)[k]
  {
    past := !((k + 1) % WRAP <= cookie);
    bytes := NeedBytes(|es[k].name|);
  }

  /** Where the scan stands: `picks` chosen, position `idx`, `used` bytes taken; it will end as `all`. */
  ghost predicate Standing(es: seq<Ent>, cookie: nat, cap: nat, picks: seq<nat>, idx: nat, used: nat, all: (seq<nat>, nat)) {
    idx <= |es| && var p := Pick(es, Sizes(es), idx, cookie, cap, used); all == (picks + p.0, p.1)
  }

  // One turn of the scan on paper: the end, full, take, or skip.

  lemma AtEnd(es: seq<Ent>, cookie: nat, cap: nat, picks: seq<nat>, used: nat, all: (seq<nat>, nat))
    requires Standing(es, cookie, cap, picks, |es|, used, all)
    ensures all == (picks, |es|)
  {
    assert picks + [] == picks;
  }

  lemma WhenFull(es: seq<Ent>, cookie: nat, cap: nat, picks: seq<nat>, idx: nat, used: nat, all: (seq<nat>, nat))
    requires Standing(es, cookie, cap, picks, idx, used, all) && idx < |es| && idx + 1 > cookie
    requires used > 0 && used + Sizes(es)[idx] > cap
    ensures all == (picks, idx)
  {
    assert picks + [] == picks;
  }

  lemma WhenTaken(es: seq<Ent>, cookie: nat, cap: nat, picks: seq<nat>, idx: nat, used: nat, all: (seq<nat>, nat), picks': seq<nat>, used': nat)
    requires Standing(es, cookie, cap, picks, idx, used, all) && idx < |es| && idx + 1 > cookie
    requires (used == 0 || used + Sizes(es)[idx] <= cap) && es[idx].ino.Some?
    requires picks' == picks + [idx] && used' == used + Sizes(es)[idx]
    ensures Standing(es, cookie, cap, picks', idx + 1, used', all)
  {
    var p := Pick(es, Sizes(es), idx + 1, cookie, cap, used + Sizes(es)[idx]);
    Assoc(picks, [idx], p.0);
  }

  lemma WhenSkipped(es: seq<Ent>, cookie: nat, cap: nat, picks: seq<nat>, idx: nat, used: nat, all: (seq<nat>, nat))
    requires Standing(es, cookie, cap, picks, idx, used, all) && idx < |es|
    requires idx + 1 <= cookie || ((used == 0 || used + Sizes(es)[idx] <= cap) && es[idx].ino.None?)
    ensures Standing(es, cookie, cap, picks, idx + 1, used, all)
  {
  }

  method VisitTaken(out: Xdr.Cursor, es: seq<Ent>, idx: nat, dirbytes: nat, bytes: nat, cookie: u32, count: u32,
                    ghost start: seq<byte>, ghost data: seq<byte>, ghost picks: seq<nat>, ghost all: (seq<nat>, nat))
    returns (used: nat, ghost data': seq<byte>, ghost picks': seq<nat>)
    requires out.Valid() && !out.err && out.Done() == start + data && |start| + Limit(count) <= out.cap
    requires Nameable(es) && idx < |es| < WRAP && Written(es, picks, dirbytes, count, data)
    requires Standing(es, cookie, Cap(count), picks, idx, dirbytes, all)
    requires idx + 1 > cookie && bytes == Sizes(es)[idx] && (dirbytes == 0 || dirbytes + bytes <= Cap(count)) && es[idx].ino.Some?
    modifies out, out.buf
    ensures out.Valid() && !out.err && out.Done() == start + data' && Written(es, picks', used, count, data')
    ensures Standing(es, cookie, Cap(count), picks', idx + 1, used, all)
  {
    used, picks' := dirbytes + bytes, picks + [idx];
    WhenTaken(es, cookie, Cap(count), picks, idx, dirbytes, all, picks', used);
    data' := TakeEntry(out, es, idx, dirbytes, count, picks, start, data, picks', used);
  }

  /** One turn of the scan in place. */
  method Visit(out: Xdr.Cursor, es: seq<Ent>, idx: nat, dirbytes: nat, cookie: u32, count: u32,
               ghost start: seq<byte>, ghost data: seq<byte>, ghost picks: seq<nat>, ghost all: (seq<nat>, nat))
    returns (full: bool, used: nat, ghost data': seq<byte>, ghost picks': seq<nat>)
    requires out.Valid() && !out.err && out.Done() == start + data && |start| + Limit(count) <= out.cap
    requires Nameable(es) && idx < |es| < WRAP && Written(es, picks, dirbytes, count, data)
    requires Standing(es, cookie, Cap(count), picks, idx, dirbytes, all)
    modifies out, out.buf
    ensures out.Valid() && !out.err && out.Done() == start + data' && Written(es, picks', used, count, data')
    ensures full ==> all == (picks', idx)
    ensures !full ==> Standing(es, cookie, Cap(count), picks', idx + 1, used, all)
  {
    full, used, data', picks' := false, dirbytes, data, picks;
    var past, bytes := Examine(es, idx, cookie);
    if past {
      if dirbytes > 0 && dirbytes + bytes > Cap(count) {
        WhenFull(es, cookie, Cap(count), picks, idx, dirbytes, all);
        full := true;
        return;
      }
      if es[idx].ino.Some? {
        used, data', picks' := VisitTaken(out, es, idx, dirbytes, bytes, cookie, count, start, data, picks, all);
        return;
      }
    }
    WhenSkipped(es, cookie, Cap(count), picks, idx, dirbytes, all);
  }

  /** The scan loop; `ended` tells whether it ran to the end of the directory. */
  method ScanEntries(out: Xdr.Cursor, es: seq<Ent>, cookie: u32, count: u32) returns (ended: bool, ghost data: seq<byte>)
    requires out.Valid() && !out.err && Nameable(es) && |es| < WRAP && out.pos + Limit(count) <= out.cap
    modifies out, out.buf
    ensures out.Valid() && !out.err && out.Done() == old(out.Done()) + data
    ensures var (picks, stop) := Pick(es, Sizes(es), 0, cookie, Cap(count), 0);
      Written(es, picks, |data|, count, data) && ended == (stop == |es|)
  {
    var idx, dirbytes := 0, 0;
    var full := false;
    data := [];
    ghost var start, picks: seq<nat> := out.Done(), [];
    ghost var all := Pick(es, Sizes(es), 0, cookie, Cap(count), 0);
    assert Standing(es, cookie, Cap(count), [], 0, 0, all) by { assert [] + all.0 == all.0; }
    while idx < |es|
      invariant out.Valid() && !out.err && out.Done() == start + data
      invariant idx <= |es| && Written(es, picks, dirbytes, count, data)
      invariant Standing(es, cookie, Cap(count), picks, idx, dirbytes, all)
    {
      full, dirbytes, data, picks := Visit(out, es, idx, dirbytes, cookie, count, start, data, picks, all);
      if full { return false, data; }
      idx := idx + 1;
    }
    AtEnd(es, cookie, Cap(count), picks, dirbytes, all);
    return true, data;
  }

  /**
    The reply holds exactly the entries `Pick` chooses, in order, with the size kept in
    `dirbytes` equal to the bytes really written and within the client's count (or one
    entry), and says end-of-directory exactly when the scan ran to the end.
  */
  method ReadDirectory(out: Xdr.Cursor, es: seq<Ent>, failed: bool, cookie: u32, count: u32) returns (ghost data: seq<byte>)
    requires out.Valid() && !out.err && Nameable(es) && |es| < WRAP && out.pos + 12 + Limit(count) <= out.cap
    modifies out, out.buf
    ensures out.Valid() && !out.err
    ensures var (picks, stop) := Pick(es, Sizes(es), 0, cookie, Cap(count), 0);
      && Written(es, picks, |data|, count, data)
      && out.Done() == old(out.Done()) + Xdr.U32Bytes(0) + data + Xdr.U32Bytes(0) + Xdr.U32Bytes(if stop == |es| && !failed then 1 else 0)
    ensures out.pos <= old(out.pos) + 12 + RD_MAXDATA
  {
    var ok := out.WriteU32(0);
    var ended;
    ended, data := ScanEntries(out, es, cookie, count);
    ok := out.WriteU32(0);
    ok := out.WriteU32(if ended && !failed then 1 else 0);
  }

  // ---------------------------------------------------------------- the reply, read by a client

  /** An entry as a client reads it. */
  datatype Listed = Listed(ino: u32, name: Path, cookie: u32)

  /** What stands at a position of a reply: an entry and the position after it, or the end of the list with the end mark. */
  datatype Read = Item(l: Listed, next: nat) | Last(eof: u32) | Malformed

  function ReadOne(s: seq<byte>, pos: nat): Read {
    var follows := Xdr.GetU32(s, pos);
    if follows.None? then Malformed
    else if follows.value.0 == 0 then
      var eof := Xdr.GetU32(s, pos + 4);
      if eof.None? then Malformed else Last(eof.value.0)
    else ReadFields(Xdr.GetU32(s, pos + 4), Xdr.GetBytes(s, pos + 8), s)
  }

  function ReadFields(ino: Option<(u32, nat)>, name: Option<(Path, nat)>, s: seq<byte>): Read {
    if ino.None? || name.None? then Malformed
    else
      var cookie := Xdr.GetU32(s, name.value.1);
      if cookie.None? then Malformed else Item(Listed(ino.value.0, name.value.0, cookie.value.0), cookie.value.1)
  }

  /** The entries from a position on, up to the end of the list, and the end mark. */
  function DecodeBy(read: nat -> Read, pos: nat, limit: nat): Option<(seq<Listed>, u32)>
    decreases limit - pos
  {
    match read(pos)
    case Malformed => None
    case Last(eof) => Some(([], eof))
    case Item(l, next) => if pos < next <= limit then With(l, DecodeBy(read, next, limit)) else None
  }

  function With(l: Listed, r: Option<(seq<Listed>, u32)>): Option<(seq<Listed>, u32)> {
    match r case None => None case Some((ls, eof)) => Some(([l] + ls, eof))
  }

  /** Reading one item at a time from the bytes `s`. */
  ghost predicate IsReader(read: nat -> Read, s: seq<byte>) {
    forall p: nat {:trigger ReadOne(s, p)} :: read(p) == ReadOne(s, p)
  }

  predicate HaveNumbers(es: seq<Ent>, picks: seq<nat>) {
    forall k :: k in picks ==> k < |es| && es[k].ino.Some?
  }

  /** An entry of the listing with its cookie, and the entries chosen. */
  function ListedAs(es: seq<Ent>, k: nat): Listed
    requires k < |es| && es[k].ino.Some?
  {
    Listed(es[k].ino.value, es[k].name, (k + 1) % WRAP)
  }

  function Chosen(es: seq<Ent>, picks: seq<nat>): seq<Listed>
    requires HaveNumbers(es, picks)
  {
    seq(|picks|, i requires 0 <= i < |picks| => assert picks[i] in picks; ListedAs(es, picks[i]))
  }

  /** The reader reads `item` from `block`, wherever that lies in `s`. */
  predicate Reads(read: nat -> Read, s: seq<byte>, block: seq<byte>, item: Listed, p: nat) {
    Lies(s, p, block) ==> |block| > 0 && read(p) == Item(item, p + |block|)
  }

  ghost predicate AllRead(read: nat -> Read, s: seq<byte>, blocks: seq<seq<byte>>, items: seq<Listed>)
    requires |blocks| == |items|
  {
    forall i: nat, p: nat :: i < |blocks| ==> Reads(read, s, blocks[i], items[i], p)
  }

  lemma FlattenFrom(blocks: seq<seq<byte>>, i: nat)
    requires i < |blocks|
    ensures Flatten(blocks[i..]) == blocks[i] + Flatten(blocks[i + 1..])
  {
    assert blocks[i..][1..] == blocks[i + 1..];
  }

  /** Blocks that follow one another up to an end mark are decoded as the items they hold. */
  lemma {:induction false} BlocksDecode(read: nat -> Read, blocks: seq<seq<byte>>, items: seq<Listed>, s: seq<byte>, p: nat, eof: u32, i: nat)
    requires i <= |blocks| == |items| && AllRead(read, s, blocks, items)
    requires Lies(s, p, Flatten(blocks[i..])) && read(p + |Flatten(blocks[i..])|) == Last(eof)
    ensures DecodeBy(read, p, |s|) == Some((items[i..], eof))
    decreases |blocks| - i
  {
    if i == |blocks| {
      assert blocks[i..] == [] && items[i..] == [];
    } else {
      FlattenFrom(blocks, i);
      LiesSplit(s, p, blocks[i], Flatten(blocks[i + 1..]));
      assert Reads(read, s, blocks[i], items[i], p);
      BlocksDecode(read, blocks, items, s, p + |blocks[i]|, eof, i + 1);
      assert items[i..] == [items[i]] + items[i + 1..];
    }
  }

  /** One entry is read back field by field. */
  lemma EntryReads(s: seq<byte>, pos: nat, ino: u32, name: Path, cookie: u32, a: seq<byte>, b: seq<byte>, c: seq<byte>, d: seq<byte>)
    requires |name| <= NAMEMAX && a == Xdr.U32Bytes(1) && b == Xdr.U32Bytes(ino) && c == Xdr.OpaqueBytes(name) && d == Xdr.U32Bytes(cookie)
    requires Lies(s, pos, a) && Lies(s, pos + 4, b) && Lies(s, pos + 8, c) && Lies(s, pos + 8 + |c|, d)
    ensures ReadOne(s, pos) == Item(Listed(ino, name, cookie), pos + 8 + |c| + 4)
  {
    Xdr.WordReadsBack(1, s, pos);
    Xdr.WordReadsBack(ino, s, pos + 4);
    Xdr.OpaqueReadsBack(name, s, pos + 8);
    Xdr.WordReadsBack(cookie, s, pos + 8 + |c|);
  }

  /** An entry as section 2.2.17 of RFC 1094 lays it out: a word that one follows, the file number, the counted name, the cookie. */
  lemma EntryFields(e: Ent, k: nat, s: seq<byte>, pos: nat)
    requires e.ino.Some? && |e.name| <= NAMEMAX && Lies(s, pos, EntryBytes(e, k))
    ensures Xdr.GetU32(s, pos) == Some((1, pos + 4)) && Xdr.GetU32(s, pos + 4) == Some((e.ino.value, pos + 8))
    ensures var q := pos + 8 + 4 + |e.name| + Xdr.Pad(|e.name|);
      Xdr.GetBytes(s, pos + 8) == Some((e.name, q)) && Xdr.GetU32(s, q) == Some(((k + 1) % WRAP, q + 4))
  {
    var a, b, c, d := Xdr.U32Bytes(1), Xdr.U32Bytes(e.ino.value), Xdr.OpaqueBytes(e.name), Xdr.U32Bytes((k + 1) % WRAP);
    FourLie(s, pos, a, b, c, d);
    Xdr.WordReadsBack(1, s, pos);
    Xdr.WordReadsBack(e.ino.value, s, pos + 4);
    Xdr.OpaqueReadsBack(e.name, s, pos + 8);
    Xdr.WordReadsBack((k + 1) % WRAP, s, pos + 8 + |c|);
  }

  lemma PartReads(e: Ent, k: nat, part: seq<byte>, s: seq<byte>, pos: nat)
    requires e.ino.Some? && |e.name| <= NAMEMAX && part == EntryBytes(e, k) && Lies(s, pos, part)
    ensures ReadOne(s, pos) == Item(Listed(e.ino.value, e.name, (k + 1) % WRAP), pos + |part|) && |part| > 0
  {
    var a, b, c, d := Xdr.U32Bytes(1), Xdr.U32Bytes(e.ino.value), Xdr.OpaqueBytes(e.name), Xdr.U32Bytes((k + 1) % WRAP);
    FourLie(s, pos, a, b, c, d);
    EntryReads(s, pos, e.ino.value, e.name, (k + 1) % WRAP, a, b, c, d);
  }

  lemma FourLie(s: seq<byte>, pos: nat, a: seq<byte>, b: seq<byte>, c: seq<byte>, d: seq<byte>)
    requires Lies(s, pos, a + b + c + d)
    ensures Lies(s, pos, a) && Lies(s, pos + |a|, b) && Lies(s, pos + |a| + |b|, c) && Lies(s, pos + |a| + |b| + |c|, d)
  {
    LiesSplit(s, pos, a + b + c, d);
    LiesSplit(s, pos, a + b, c);
    LiesSplit(s, pos, a, b);
  }

  lemma EndReads(s: seq<byte>, pos: nat, eof: u32)
    requires Lies(s, pos, Xdr.U32Bytes(0) + Xdr.U32Bytes(eof))
    ensures ReadOne(s, pos) == Last(eof)
  {
    var a, b := Xdr.U32Bytes(0), Xdr.U32Bytes(eof);
    LiesSplit(s, pos, a, b);
    Xdr.WordReadsBack(0, s, pos);
    Xdr.WordReadsBack(eof, s, pos + 4);
  }

  lemma EncodingAt(es: seq<Ent>, k: nat)
    requires Nameable(es) && k < |es| && es[k].ino.Some?
    ensures |es[k].name| <= NAMEMAX && Encodings(es)[k] == EntryBytes(es[k], k)
  {
    assert es[k] in es;
  }

  lemma ChosenRead(es: seq<Ent>, picks: seq<nat>, read: nat -> Read, s: seq<byte>, i: nat, p: nat)
    requires Nameable(es) && HaveNumbers(es, picks) && i < |picks| && picks[i] < |es| && read(p) == ReadOne(s, p)
    ensures Reads(read, s, Encodings(es)[picks[i]], Chosen(es, picks)[i], p)
  {
    var k := picks[i];
    assert k in picks;
    EncodingAt(es, k);
    if Lies(s, p, Encodings(es)[k]) { PartReads(es[k], k, Encodings(es)[k], s, p); }
  }

  lemma AllChosenRead(es: seq<Ent>, picks: seq<nat>, read: nat -> Read, s: seq<byte>)
    requires Nameable(es) && HaveNumbers(es, picks) && IsReader(read, s)
    ensures AllRead(read, s, Blocks(Encodings(es), picks), Chosen(es, picks))
  {
    var blocks, items := Blocks(Encodings(es), picks), Chosen(es, picks);
    forall i: nat, p: nat | i < |blocks| ensures Reads(read, s, blocks[i], items[i], p) {
      assert picks[i] in picks;
      var r := ReadOne(s, p);
      ChosenRead(es, picks, read, s, i, p);
    }
  }

  lemma EndRead(read: nat -> Read, s: seq<byte>, pos: nat, eof: u32)
    requires IsReader(read, s) && Lies(s, pos, Xdr.U32Bytes(0) + Xdr.U32Bytes(eof))
    ensures read(pos) == Last(eof)
  {
    EndReads(s, pos, eof);
  }

  /** A page of chosen entries is read back as exactly those entries, and then the end mark. */
  lemma PageDecodes(es: seq<Ent>, picks: seq<nat>, s: seq<byte>, pos: nat, eof: u32, read: nat -> Read)
    requires Nameable(es) && HaveNumbers(es, picks) && Lies(s, pos, Page(Encodings(es), picks)) && IsReader(read, s)
    requires read(pos + |Page(Encodings(es), picks)|) == Last(eof)
    ensures DecodeBy(read, pos, |s|) == Some((Chosen(es, picks), eof))
  {
    var blocks, items := Blocks(Encodings(es), picks), Chosen(es, picks);
    AllChosenRead(es, picks, read, s);
    assert blocks[0..] == blocks && items[0..] == items;
    BlocksDecode(read, blocks, items, s, pos, eof, 0);
  }

  /** The entries of a reply lie after its status, and the end of the list after them. */
  lemma ReplyLies(before: seq<byte>, data: seq<byte>, done: seq<byte>, eof: u32)
    requires done == before + Xdr.U32Bytes(0) + data + Xdr.U32Bytes(0) + Xdr.U32Bytes(eof)
    ensures Lies(done, |before| + 4, data) && Lies(done, |before| + 4 + |data|, Xdr.U32Bytes(0) + Xdr.U32Bytes(eof))
  {
    TailLies(before, Xdr.U32Bytes(0), data, Xdr.U32Bytes(0), Xdr.U32Bytes(eof));
    LiesSplit(done, |before| + 4, data, Xdr.U32Bytes(0) + Xdr.U32Bytes(eof));
  }

  /** What a client reads from the bytes of a reply is what was chosen for it, in order, with the end mark. */
  lemma ReplyDecodes(es: seq<Ent>, picks: seq<nat>, data: seq<byte>, s: seq<byte>, pos: nat, eof: u32, read: nat -> Read)
    requires Nameable(es) && HaveNumbers(es, picks) && IsReader(read, s) && data == Page(Encodings(es), picks)
    requires Lies(s, pos, data) && Lies(s, pos + |data|, Xdr.U32Bytes(0) + Xdr.U32Bytes(eof))
    ensures DecodeBy(read, pos, |s|) == Some((Chosen(es, picks), eof))
  {
    EndRead(read, s, pos + |data|, eof);
    PageDecodes(es, picks, s, pos, eof, read);
  }

  lemma TailLies(a: seq<byte>, b: seq<byte>, c: seq<byte>, d: seq<byte>, e: seq<byte>)
    ensures Lies(a + b + c + d + e, |a| + |b|, c + (d + e))
  {
    var all, tail := a + b + c + d + e, c + (d + e);
    assert all == (a + b) + tail;
    assert all[|a + b|..|a + b| + |tail|] == tail;
  }

  // ---------------------------------------------------------------- a client that reads the bytes

  function Decoded(s: seq<byte>): Option<(seq<Listed>, u32)> {
    DecodeBy((p: nat) => ReadOne(s, p), 4, |s|)
  }

  lemma DecodedIs(s: seq<byte>, read: nat -> Read)
    requires read == ((p: nat) => ReadOne(s, p))
    ensures IsReader(read, s) && Decoded(s) == DecodeBy(read, 4, |s|)
  {
  }

  /** The body of a reply decodes to what `Pick` chose and the end mark. */
  lemma BodyDecodes(es: seq<Ent>, failed: bool, cookie: u32, count: u32)
    requires Nameable(es)
    ensures var (picks, stop) := Pick(es, Sizes(es), 0, cookie, Cap(count), 0);
      HaveNumbers(es, picks)
      && Decoded(ReplyBody(es, failed, cookie, count)) == Some((Chosen(es, picks), if stop == |es| && !failed then 1 else 0))
  {
    var p := Pick(es, Sizes(es), 0, cookie, Cap(count), 0);
    PageBodyDecodes(es, p.0, if p.1 == |es| && !failed then 1 else 0, ReplyBody(es, failed, cookie, count));
  }

  lemma PageBodyDecodes(es: seq<Ent>, picks: seq<nat>, eof: u32, s: seq<byte>)
    requires Nameable(es) && HaveNumbers(es, picks)
    requires s == Xdr.U32Bytes(0) + Page(Encodings(es), picks) + Xdr.U32Bytes(0) + Xdr.U32Bytes(eof)
    ensures Decoded(s) == Some((Chosen(es, picks), eof))
  {
    var data, read := Page(Encodings(es), picks), (p: nat) => ReadOne(s, p);
    BodyLies(data, s, eof);
    DecodedIs(s, read);
    ReplyDecodes(es, picks, data, s, 4, eof, read);
  }

  lemma BodyLies(data: seq<byte>, s: seq<byte>, eof: u32)
    requires s == Xdr.U32Bytes(0) + data + Xdr.U32Bytes(0) + Xdr.U32Bytes(eof)
    ensures Lies(s, 4, data) && Lies(s, 4 + |data|, Xdr.U32Bytes(0) + Xdr.U32Bytes(eof))
  {
    assert [] + Xdr.U32Bytes(0) == Xdr.U32Bytes(0);
    ReplyLies([], data, s, eof);
  }

  /** A client's progress, from the bytes of the replies alone: the entries read, the cookie of the last one, the end mark. */
  datatype Listing = Listing(entries: seq<Listed>, cookie: u32, eof: bool)

  function Hear(c: Listing, reply: seq<byte>): Listing {
    match Decoded(reply)
    case None => c
    case Some((ls, eof)) => Heard(c, ls, eof)
  }

  function Heard(c: Listing, ls: seq<Listed>, eof: u32): Listing {
    Listing(c.entries + ls, if ls == [] then c.cookie else ls[|ls| - 1].cookie, eof == 1)
  }

  function Listen(es: seq<Ent>, asks: seq<Ask>): Listing
    requires Nameable(es) && forall a :: a in asks ==> Possible(es, a)
  {
    if asks == [] then Listing([], 0, false)
    else
      assert asks[|asks| - 1] in asks;
      AskAgain(es, Listen(es, asks[..|asks| - 1]), asks[|asks| - 1])
  }

  function AskAgain(es: seq<Ent>, c: Listing, a: Ask): Listing
    requires Nameable(es) && Possible(es, a)
  {
    if c.eof then c else Hear(c, ReplyBody(es[..a.seen], a.failed, c.cookie, a.count))
  }

  /** The client of the bytes stands where the client of `EveryEntryOnce` stands. */
  ghost predicate Alike(es: seq<Ent>, l: Listing, c: Client) {
    HaveNumbers(es, c.got) && l.entries == Chosen(es, c.got) && l.cookie == c.cookie && l.eof == c.eof
  }

  lemma HearKeeps(es: seq<Ent>, l: Listing, c: Client, a: Ask)
    requires Nameable(es) && |es| < WRAP && Possible(es, a) && c.cookie <= |es| && Alike(es, l, c) && !c.eof
    ensures Alike(es, AskAgain(es, l, a), Call(es, Sizes(es), c, a))
  {
    var seen := es[..a.seen];
    assert Sizes(es)[..a.seen] == Sizes(seen);
    var p := Pick(seen, Sizes(seen), 0, c.cookie, Cap(a.count), 0);
    BodyDecodes(seen, a.failed, l.cookie, a.count);
    ChosenSeen(es, a.seen, p.0);
    HeardChosen(es, l, c, p.0, if p.1 == a.seen && !a.failed then 1 else 0);
  }

  lemma ChosenSeen(es: seq<Ent>, m: nat, picks: seq<nat>)
    requires m <= |es| && HaveNumbers(es[..m], picks)
    ensures HaveNumbers(es, picks) && Chosen(es, picks) == Chosen(es[..m], picks)
  {
    forall k | k in picks ensures k < |es| && es[k].ino.Some? { assert es[..m][k] == es[k]; }
  }

  lemma HeardChosen(es: seq<Ent>, l: Listing, c: Client, picks: seq<nat>, eof: u32)
    requires |es| < WRAP && Alike(es, l, c) && HaveNumbers(es, picks)
    ensures Alike(es, Heard(l, Chosen(es, picks), eof),
      Client(c.got + picks, if picks == [] then c.cookie else picks[|picks| - 1] + 1, eof == 1))
  {
    if picks != [] { assert picks[|picks| - 1] in picks; }
    ChosenAppend(es, c.got, picks, c.got + picks);
  }

  lemma {:induction false} ListenIsSession(es: seq<Ent>, asks: seq<Ask>)
    requires Nameable(es) && |es| < WRAP && forall a :: a in asks ==> Possible(es, a)
    ensures Alike(es, Listen(es, asks), Session(es, Sizes(es), asks))
    decreases |asks|
  {
    if asks != [] {
      var init, a := asks[..|asks| - 1], asks[|asks| - 1];
      assert a in asks;
      ListenIsSession(es, init);
      if !Session(es, Sizes(es), init).eof { HearKeeps(es, Listen(es, init), Session(es, Sizes(es), init), a); }
    }
  }

  lemma {:induction false} ListableHave(es: seq<Ent>, i: nat)
    requires i <= |es|
    ensures HaveNumbers(es, Listable(es, i))
    decreases |es| - i
  {
    if i < |es| { ListableHave(es, i + 1); }
  }

  /**
    What a client reads from the bytes of the replies: for every sequence of calls with
    any counts, read errors included, the entries read so far, then those it can still
    ask for with its cookie, are the directory's listable entries, each with its name,
    file number and cookie, once and in order; told the end, it has read them all.
  */
  lemma NamesInOrder(es: seq<Ent>, asks: seq<Ask>)
    requires Nameable(es) && |es| < WRAP && forall a :: a in asks ==> Possible(es, a)
    ensures var l := Listen(es, asks);
      && l.cookie <= |es| && HaveNumbers(es, Listable(es, 0)) && HaveNumbers(es, Listable(es, l.cookie))
      && l.entries + Chosen(es, Listable(es, l.cookie)) == Chosen(es, Listable(es, 0))
      && (l.eof ==> l.entries == Chosen(es, Listable(es, 0)))
  {
    ListenIsSession(es, asks);
    EveryEntryOnce(es, Sizes(es), asks);
    var c := Session(es, Sizes(es), asks);
    ListableHave(es, 0);
    ListableHave(es, c.cookie);
    ChosenAppend(es, c.got, Listable(es, c.cookie), Listable(es, 0));
  }

  lemma ChosenAppend(es: seq<Ent>, a: seq<nat>, b: seq<nat>, all: seq<nat>)
    requires HaveNumbers(es, a) && HaveNumbers(es, b) && HaveNumbers(es, all) && all == a + b
    ensures Chosen(es, all) == Chosen(es, a) + Chosen(es, b)
  {
  }
}
