/**
  Supervised execution (RUN and RUNI): one loop moves the child's output to the session as
  it appears, the client's input to the child, and decides when to kill and when to stop.
  Each turn of the loop is driven by a `Tick`, what the system reports on that turn; a
  sequence of ticks is a schedule, and the results hold for every schedule.
*/
module Live {
  import opened Bytes
  import opened Decimal
  import opened Lineio
  import opened Output

  const KILL_GRACE := 2

  datatype Status = ExitedWith(code: nat) | Signaled(sig: nat) | NoStatus

  /**
    One turn: what a read of each ready pipe gives ("" is end of file), whether the
    session is readable, the clock, and whether the child can be reaped.
  */
  datatype Tick = Tick(out: Option<string>, err: Option<string>, session: bool, now: int, exited: Option<Status>)

  /** What the client may send while the job runs. */
  datatype ClientFrame = Input(data: string) | InputEnd | Kill | Violation

  /** The frame at the head of the client's bytes, and what follows it. */
  function NextClientFrame(s: string): (ClientFrame, string) {
    var (line, rest) := ReadLine(s, LINE_MAX, "");
    if !line.Got? then (Violation, rest) else
    var l := line.text;
    if At(l, 0) == 'K' && At(l, 1) == '\0' then (Kill, rest)
    else if At(l, 0) == 'I' && At(l, 1) == ' ' then
      var n := Atol(l[2..]);
      if n < 0 || n > FRAME_MAX then (Violation, rest)
      else if n == 0 then (InputEnd, rest)
      else if n > |rest| then (Violation, "")
      else (Input(rest[..n]), rest[n..])
    else (Violation, rest)
  }

  lemma InputFrameReads(data: string, rest: string)
    requires 1 <= |data| <= FRAME_MAX
    ensures NextClientFrame(Frame('I', data) + rest) == (Input(data), rest)
  {
    HeaderReads('I', |data|, data + rest, LINE_MAX);
    assert Frame('I', data) + rest == Header('I', |data|) + "\n" + (data + rest);
    assert (data + rest)[..|data|] == data && (data + rest)[|data|..] == rest;
  }

  lemma KillReads(rest: string)
    ensures NextClientFrame("K\n" + rest) == (Kill, rest)
    ensures NextClientFrame("I 0\n" + rest) == (InputEnd, rest)
  {
    assert Plain("K");
    ReadLineIs("K", rest, LINE_MAX, "");
    assert "K" + "\n" + rest == "K\n" + rest && "" + "K" == "K";
    HeaderReads('I', 0, rest, LINE_MAX);
    assert Header('I', 0) + "\n" == "I 0\n";
  }

  /** What a line of the client's is: K, the end of its input, or input that is all there; anything else breaks the rules. */
  lemma ClientLineIs(line: string, rest: string)
    requires Plain(line) && |line| < LINE_MAX
    ensures NextClientFrame(line + "\n" + rest) ==
      if line == "K" then (Kill, rest)
      else if !("I " <= line) || Atol(line[2..]) < 0 || Atol(line[2..]) > 4096 then (Violation, rest)
      else if Atol(line[2..]) == 0 then (InputEnd, rest)
      else if Atol(line[2..]) > |rest| then (Violation, "")
      else (Input(rest[..Atol(line[2..])]), rest[Atol(line[2..])..])
  {
    ReadLineIs(line, rest, LINE_MAX, "");
    assert "" + line == line;
    if |line| > 1 && line[0] == 'K' { assert line[1] in line; }
  }

  // ---------------------------------------------------------------- what the client says

  /** The input in a frame. */
  function PayloadOf(f: ClientFrame): string { if f.Input? then f.data else "" }

  /**
    The first `n` frames of a byte stream: all their input, the part of it before the first
    K or end of input, whether a K was among them, and the bytes after them.
  */
  datatype Heard = Heard(input: string, meant: string, ended: bool, kill: bool, rest: string)

  function Listen(s: string, n: nat): Heard {
    if n == 0 then Heard("", "", false, false, s) else OneMore(Listen(s, n - 1))
  }

  function OneMore(h: Heard): Heard {
    var (f, rest) := NextClientFrame(h.rest);
    Heard(h.input + PayloadOf(f), if h.ended then h.meant else h.meant + PayloadOf(f),
          h.ended || f.Kill? || f.InputEnd?, h.kill || f.Kill?, rest)
  }

  function InputFrames(datas: seq<string>): string {
    if datas == [] then "" else InputFrames(datas[..|datas| - 1]) + Frame('I', datas[|datas| - 1])
  }

  lemma {:induction false} ListenTo(datas: seq<string>, rest: string)
    requires forall d :: d in datas ==> 1 <= |d| <= FRAME_MAX
    ensures Listen(InputFrames(datas) + rest, |datas|) == Heard(Flatten(datas), Flatten(datas), false, false, rest)
    decreases |datas|
  {
    if datas == [] {
      assert "" + rest == rest;
    } else {
      var init, last := datas[..|datas| - 1], datas[|datas| - 1];
      assert last in datas && datas == init + [last];
      ListenTo(init, Frame('I', last) + rest);
      ListenSnoc(init, last, rest, Flatten(init));
    }
  }

  lemma ListenSnoc(init: seq<string>, last: string, rest: string, x: string)
    requires 1 <= |last| <= FRAME_MAX && x == Flatten(init)
    requires Listen(InputFrames(init) + (Frame('I', last) + rest), |init|) == Heard(x, x, false, false, Frame('I', last) + rest)
    ensures Listen(InputFrames(init + [last]) + rest, |init + [last]|)
      == Heard(Flatten(init + [last]), Flatten(init + [last]), false, false, rest)
  {
    FramesSnoc(init, last, rest);
    FlattenSnoc(init, last);
    ListenOnce(InputFrames(init) + (Frame('I', last) + rest), |init|, x, last, rest);
  }

  lemma ListenOnce(s: string, n: nat, x: string, data: string, rest: string)
    requires 1 <= |data| <= FRAME_MAX && Listen(s, n) == Heard(x, x, false, false, Frame('I', data) + rest)
    ensures Listen(s, n + 1) == Heard(x + data, x + data, false, false, rest)
  {
    OneMoreInput(x, data, rest);
  }

  lemma FramesSnoc(init: seq<string>, last: string, rest: string)
    ensures InputFrames(init + [last]) + rest == InputFrames(init) + (Frame('I', last) + rest)
  {
    assert (init + [last])[..|init|] == init;
    Assoc(InputFrames(init), Frame('I', last), rest);
  }

  lemma OneMoreInput(x: string, data: string, rest: string)
    requires 1 <= |data| <= FRAME_MAX
    ensures OneMore(Heard(x, x, false, false, Frame('I', data) + rest)) == Heard(x + data, x + data, false, false, rest)
  {
    InputFrameReads(data, rest);
  }

  lemma {:induction false} EndedStays(s: string, n: nat, m: nat)
    requires n <= m && Listen(s, n).ended
    ensures Listen(s, m).ended && Listen(s, m).meant == Listen(s, n).meant && (Listen(s, n).kill ==> Listen(s, m).kill)
    decreases m
  {
    if n < m { EndedStays(s, n, m - 1); }
  }

  /** What a client sends before its K, or its end of input, is what the child is meant to get, however much it sends after. */
  lemma MeantBeforeEnd(datas: seq<string>, kill: bool, rest: string, m: nat)
    requires forall d :: d in datas ==> 1 <= |d| <= FRAME_MAX
    requires m > |datas|
    ensures var h := Listen(InputFrames(datas) + ((if kill then "K\n" else "I 0\n") + rest), m);
      h.meant == Flatten(datas) && h.ended && (kill ==> h.kill)
  {
    var tail := (if kill then "K\n" else "I 0\n") + rest;
    var s := InputFrames(datas) + tail;
    ListenTo(datas, tail);
    KillReads(rest);
    assert Flatten(datas) + "" == Flatten(datas);
    EndedStays(s, |datas| + 1, m);
  }

  // ---------------------------------------------------------------- what the child takes

  /** The child's standard input: what it has taken, whether it is still open and how much more it will take; and whether it was signalled. */
  datatype Child = Child(taken: string, open: bool, room: nat, killed: bool)

  function Offer(k: Child, f: ClientFrame): Child {
    match f
    case Input(data) =>
      if !k.open || k.killed then k
      else if |data| <= k.room then k.(taken := k.taken + data, room := k.room - |data|)
      else k.(taken := k.taken + data[..k.room], room := 0, open := false)
    case InputEnd => k.(open := false)
    case Kill => k.(killed := true)
    case Violation => k
  }

  datatype Rules = Rules(interactive: bool, cap: nat, stdinRoom: nat)

  /** The child, and what of the client's bytes is still unread. */
  datatype Inner = Inner(child: Child, rest: string)

  predicate PastCap(r: Rules, total: nat) { r.cap > 0 && total > r.cap }

  /** One turn with `total` bytes of output read by then: the cap first, then at most one client frame. */
  function NextInner(r: Rules, j: Inner, t: Tick, total: nat): Inner {
    var k := if PastCap(r, total) then j.child.(killed := true) else j.child;
    if t.session && r.interactive then
      var (f, rest) := NextClientFrame(j.rest);
      Inner(Offer(k, f), rest)
    else Inner(k, j.rest)
  }

  function Total(ticks: seq<Tick>): nat { |Yield(ticks, Out).0| + |Yield(ticks, Err).0| }

  /** The child after a whole schedule, the client having sent `s`. */
  function After(r: Rules, s: string, ticks: seq<Tick>): Inner {
    if ticks == [] then Inner(Child("", r.interactive, r.stdinRoom, false), s)
    else NextInner(r, After(r, s, ticks[..|ticks| - 1]), ticks[|ticks| - 1], Total(ticks))
  }

  /** How many frames the client is heard to send: one on each turn its bytes are ready. */
  function Frames(r: Rules, ticks: seq<Tick>): nat {
    if ticks == [] then 0
    else Frames(r, ticks[..|ticks| - 1]) + (if ticks[|ticks| - 1].session && r.interactive then 1 else 0)
  }

  /** As much of `s` as there is room for. */
  function Head(s: string, room: nat): string { if |s| <= room then s else s[..room] }

  /**
    How the child stands to what the client has been heard to say, with `total` bytes of
    output: while those are within the cap it has all of what is meant for it that it has
    room for.
  */
  ghost predicate Stands(r: Rules, j: Inner, h: Heard, total: nat) {
    var past := r.cap > 0 && total > r.cap;
    && j.rest == h.rest
    && j.child.taken <= h.meant
    && (j.child.open && !j.child.killed ==> j.child.taken == h.meant && !h.ended)
    && (j.child.killed <==> h.kill || past)
    && (h.kill ==> h.ended)
    && (!r.interactive ==> j.child.taken == "")
    && |j.child.taken| + j.child.room == r.stdinRoom
    && (r.interactive && !past ==>
          j.child.taken == Head(h.meant, r.stdinRoom) && (h.ended || j.child.open || j.child.room == 0))
  }

  lemma StandsNext(r: Rules, j: Inner, h: Heard, before: nat, t: Tick, total: nat)
    requires Stands(r, j, h, before) && before <= total
    ensures Stands(r, NextInner(r, j, t, total), if t.session && r.interactive then OneMore(h) else h, total)
  {
  }

  /**
    After every schedule: exactly the heard frames have been taken from the client; the
    child has a prefix of what the client meant it to get, all of it while its input is
    open and it was not signalled, and as much of it as it has room for until the output
    passes the cap; and it was signalled exactly if the client said K or the output passed
    the cap. In RUN mode nothing is taken from the client at all.
  */
  lemma {:induction false} ChildTakesPrefix(r: Rules, s: string, ticks: seq<Tick>)
    ensures Stands(r, After(r, s, ticks), Listen(s, Frames(r, ticks)), Total(ticks))
    ensures !r.interactive ==> After(r, s, ticks).rest == s
  {
    if ticks != [] {
      var init := ticks[..|ticks| - 1];
      ChildTakesPrefix(r, s, init);
      var t := ticks[|ticks| - 1];
      assert Frames(r, ticks) == Frames(r, init) + (if t.session && r.interactive then 1 else 0);
      StandsNext(r, After(r, s, init), Listen(s, Frames(r, init)), Total(init), t, Total(ticks));
    }
  }

  /** Once the child has been signalled, by K or the cap, it is given nothing more. */
  lemma {:induction false} NothingAfterKill(r: Rules, s: string, ticks: seq<Tick>, i: nat)
    requires i <= |ticks| && After(r, s, ticks[..i]).child.killed
    ensures After(r, s, ticks).child.killed && After(r, s, ticks).child.taken == After(r, s, ticks[..i]).child.taken
    decreases |ticks|
  {
    if i == |ticks| {
      assert ticks[..i] == ticks;
    } else {
      var init := ticks[..|ticks| - 1];
      assert init[..i] == ticks[..i];
      NothingAfterKill(r, s, init, i);
      KilledGetsNothing(r, After(r, s, init), ticks[|ticks| - 1], Total(ticks));
    }
  }

  lemma KilledGetsNothing(r: Rules, j: Inner, t: Tick, total: nat)
    requires j.child.killed
    ensures var k := NextInner(r, j, t, total).child; k.killed && k.taken == j.child.taken
  {
  }

  // ---------------------------------------------------------------- what the schedule yields

  /** A pipe, what has been read of it and whether it is open, after one more read, if there was one. */
  function Pipe(p: (string, bool), read: Option<string>): (string, bool) {
    if p.1 && read.Some? then (p.0 + read.value, read.value != "") else p
  }

  /** What a pipe yields over a schedule: everything read up to and including the first end of file. */
  function Yield(ticks: seq<Tick>, t: Tag): (string, bool) {
    if ticks == [] then ("", true)
    else
      var tick := ticks[|ticks| - 1];
      Pipe(Yield(ticks[..|ticks| - 1], t), if t == Out then tick.out else tick.err)
  }

  /**
    What a pipe yields, from its reads alone: all that was read of that pipe before the
    first end of file, which is at turn `n`, or not within the schedule.
  */
  lemma {:induction false} YieldIs(ticks: seq<Tick>, t: Tag, gets: seq<Option<string>>, n: nat)
    requires |gets| == |ticks| && forall i :: 0 <= i < |ticks| ==> gets[i] == match t case Out => ticks[i].out case Err => ticks[i].err
    requires n <= |ticks| && (forall i :: 0 <= i < n ==> gets[i] != Some("")) && (n < |ticks| ==> gets[n] == Some(""))
    ensures Yield(ticks, t) == (Flatten(Texts(gets[..n])), n == |ticks|)
    decreases |ticks|
  {
    if ticks != [] {
      var k := |ticks| - 1;
      var m := if n > k then k else n;
      YieldIs(ticks[..k], t, gets[..k], m);
      assert gets[..k][..m] == gets[..m];
      if n > k {
        FlattenSnoc(Texts(gets[..k]), TextOf(gets[k]));
        assert Texts(gets[..n]) == Texts(gets[..k]) + [TextOf(gets[k])];
        assert Flatten(Texts(gets[..k])) + "" == Flatten(Texts(gets[..k]));
      } else if n == k {
        assert Flatten(Texts(gets[..n])) + "" == Flatten(Texts(gets[..n]));
      }
    }
  }

  function TextOf(read: Option<string>): string { if read.Some? then read.value else "" }

  function Texts(gets: seq<Option<string>>): seq<string> { seq(|gets|, i requires 0 <= i < |gets| => TextOf(gets[i])) }

  /** The first exit status the system reports over a schedule. */
  function Reaped(ticks: seq<Tick>): Option<Status> {
    if ticks == [] then None
    else
      var before := Reaped(ticks[..|ticks| - 1]);
      if before.Some? then before else ticks[|ticks| - 1].exited
  }

  function ExitCode(s: Status): int {
    match s
    case ExitedWith(code) => code % 256
    case Signaled(sig) => (128 + sig) % 256
    case NoStatus => -1
  }

  /** The code reported for an end: the child's own, 128 and the signal, or -1, the first two within a byte. */
  predicate Reported(s: Status, code: int) {
    && (s.NoStatus? <==> code == -1)
    && (s.ExitedWith? ==> 0 <= code < 256 && (s.code - code) % 256 == 0)
    && (s.Signaled? ==> 0 <= code < 256 && (128 + s.sig - code) % 256 == 0)
  }

  lemma CodeReported(s: Status)
    ensures Reported(s, ExitCode(s))
  {
  }

  // ---------------------------------------------------------------- frames sent

  lemma {:induction false} LogAppend(ps: seq<Piece>, p: Piece)
    ensures Wire(ps + [p]) == Wire(ps) + PieceWire(p)
    ensures Notices(ps + [p]) == Notices(ps) + (if p.Notice? then 1 else 0)
  {
    if ps == [] {
      assert [p][1..] == [];
      assert PieceWire(p) + "" == PieceWire(p);
    } else {
      assert (ps + [p])[1..] == ps[1..] + [p];
      LogAppend(ps[1..], p);
      Assoc(PieceWire(ps[0]), Wire(ps[1..]), PieceWire(p));
    }
  }

  lemma LogPayload(ps: seq<Piece>, p: Piece, t: Tag)
    ensures Payload(ps + [p], t) == Payload(ps, t) + (if p.Data? && p.tag == t then p.text else "")
  {
    PayloadAppend(ps, [p], t);
    PayloadCons(p, [], t);
    assert [p] + [] == [p];
  }

  /** Why a session was lost on a turn: a write failed, or the client broke the silence of RUN or sent what is no frame. */
  predicate LostOn(r: Rules, room: nat, incoming: string, t: Tick, was: string) {
    || (room == 0 && incoming == was)
    || (t.session && !r.interactive && incoming == was)
    || (t.session && r.interactive && NextClientFrame(was) == (Violation, incoming))
  }

  /** Nothing the client sends on this turn breaks the rules: silence in RUN mode, frames in RUNI. */
  predicate KeepsRules(r: Rules, incoming: string, t: Tick) {
    t.session ==> r.interactive && !NextClientFrame(incoming).0.Violation?
  }

  /** The client, having sent `s`, breaks no rule over a whole schedule. */
  predicate Obedient(r: Rules, s: string, ticks: seq<Tick>) {
    ticks == [] || (Obedient(r, s, ticks[..|ticks| - 1]) && KeepsRules(r, After(r, s, ticks[..|ticks| - 1]).rest, ticks[|ticks| - 1]))
  }

  datatype Verdict = GoOn | Over | Lost

  class Supervisor {
    const ch: Chan
    const rules: Rules
    var outOpen: bool
    var errOpen: bool
    var inOpen: bool
    var killed: nat
    var tkill: int
    var reaped: bool
    var status: Status
    var total: nat
    var capped: bool
    var childIn: string      // what the child's standard input has taken
    var childRoom: nat       // how much more it will take

    ghost var before: string        // written to the session before the job
    ghost var pieces: seq<Piece>    // frames sent
    ghost var readOut: string       // bytes read from the child's pipes
    ghost var readErr: string

    /** The session holds exactly what was read, in order, and at most one notice. */
    ghost predicate OutputExact()
      reads this, ch
    {
      && Payload(pieces, Out) == readOut && Payload(pieces, Err) == readErr
      && Notices(pieces) == (if capped then 1 else 0)
      && total == |readOut| + |readErr|
      && (ch.room > 0 ==> ch.outgoing == before + Wire(pieces))
    }

    /** The child as it stands. */
    ghost function Kid(): Child
      reads this
    {
      Child(childIn, inOpen, childRoom, killed > 0)
    }

    /** Between turns the notice has been sent exactly if the cap is passed, and then the child was signalled. */
    ghost predicate Valid()
      reads this, ch
    {
      OutputExact() && capped == PastCap(rules, total) && (capped ==> killed > 0)
    }

    constructor (c: Chan, r: Rules)
      ensures ch == c && rules == r && Valid() && outOpen && errOpen && !reaped
      ensures Kid() == Child("", r.interactive, r.stdinRoom, false)
      ensures before == c.outgoing && readOut == "" && readErr == ""
    {
      ch, rules := c, r;
      outOpen, errOpen, inOpen := true, true, r.interactive;
      killed, tkill, reaped, status, total, capped := 0, 0, false, NoStatus, 0, false;
      childIn, childRoom := "", r.stdinRoom;
      before, pieces, readOut, readErr := c.outgoing, [], "", "";
      new;
      assert before + "" == before;
    }

    method KillChild(now: int)
      modifies `killed, `tkill
      ensures Kid() == old(Kid()).(killed := true)
    {
      if killed == 0 {
        killed, tkill := 1, now;
      }
    }

    /** Send a piece and log it. */
    method Send(p: Piece) returns (ok: bool)
      requires 1 <= |PieceText(p)| <= FRAME_MAX
      requires ch.room > 0 ==> ch.outgoing == before + Wire(pieces)
      modifies ch, `pieces
      ensures ok ==> ch.outgoing == old(ch.outgoing) + PieceWire(p)
      ensures !ok ==> ch.room == 0
      ensures pieces == old(pieces) + [p] && ch.incoming == old(ch.incoming)
      ensures ch.room > 0 ==> ch.outgoing == before + Wire(pieces)
    {
      LogAppend(pieces, p);
      Assoc(before, Wire(pieces), PieceWire(p));
      ok := SendPiece(ch, p);
      pieces := pieces + [p];
    }

    /** Drain one pipe into a frame: false at end of file, None when the session is lost. */
    method Pump(tag: Tag, data: string) returns (open: Option<bool>)
      requires |data| <= FRAME_MAX && OutputExact()
      modifies ch, `pieces, `total, `readOut, `readErr
      ensures open == Some(data != "") || (open == None && data != "" && ch.room == 0)
      ensures OutputExact() && ch.incoming == old(ch.incoming)
      ensures readOut == if tag == Out then old(readOut) + data else old(readOut)
      ensures readErr == if tag == Err then old(readErr) + data else old(readErr)
    {
      if data == "" {
        assert readOut + data == readOut && readErr + data == readErr;
        return Some(false);
      }
      var p := Data(tag, data);
      total := total + |data|;
      LogAppend(pieces, p);
      LogPayload(pieces, p, Out);
      LogPayload(pieces, p, Err);
      if tag == Out { readOut := readOut + data; } else { readErr := readErr + data; }
      var ok := Send(p);
      return if ok then Some(true) else None;
    }

    /** The write loop to the child's standard input; a child that stops reading loses the rest and is closed off. */
    method Feed(data: string)
      requires inOpen && killed == 0
      modifies `childIn, `childRoom, `inOpen
      ensures Kid() == Offer(old(Kid()), Input(data))
    {
      var done := 0;
      ghost var taken, room := childIn, childRoom;
      assert taken + data[..0] == taken;
      while done < |data|
        invariant done <= |data| && done <= room && childRoom == room - done && inOpen
        invariant childIn == taken + data[..done]
      {
        if childRoom == 0 {
          inOpen := false;
          return;
        }
        var w := if |data| - done < childRoom then |data| - done else childRoom;
        assert data[..done + w] == data[..done] + data[done..done + w];
        Assoc(taken, data[..done], data[done..done + w]);
        childIn := childIn + data[done..done + w];
        done, childRoom := done + w, childRoom - w;
      }
      assert data[..|data|] == data;
    }

    /** One client frame: exactly its header and payload are taken from the session, and its input is offered to the child. */
    method RuniFrame(now: int) returns (ok: bool)
      modifies ch`incoming, ch`cuts, `inOpen, `killed, `tkill, `childIn, `childRoom
      ensures var (f, rest) := NextClientFrame(old(ch.incoming));
        ch.incoming == rest && ok == !f.Violation? && Kid() == Offer(old(Kid()), f)
    {
      var r := ch.GetLine(LINE_MAX);
      if !r.Got? { return false; }
      var line := r.text;
      if At(line, 0) == 'K' && At(line, 1) == '\0' {
        KillChild(now);
        return true;
      }
      if At(line, 0) == 'I' && At(line, 1) == ' ' {
        var n := Atol(line[2..]);
        if n < 0 || n > FRAME_MAX { return false; }
        if n == 0 {
          inOpen := false;
          return true;
        }
        var got, buf := ch.ReadN(n);
        if !got { return false; }
        if inOpen && killed == 0 {
          Feed(buf);
        }
        return true;
      }
      return false;
    }

    /** Over the cap for the first time: say so, kill the job and let its output drain. */
    method CheckCap(now: int)
      requires OutputExact() && (capped ==> killed > 0 && PastCap(rules, total))
      modifies ch, `capped, `pieces, `killed, `tkill
      ensures Valid() && ch.incoming == old(ch.incoming)
      ensures Kid() == if PastCap(rules, total) then old(Kid()).(killed := true) else old(Kid())
    {
      if rules.cap > 0 && total > rules.cap && !capped {
        capped := true;
        LogAppend(pieces, Notice);
        LogPayload(pieces, Notice, Out);
        LogPayload(pieces, Notice, Err);
        var _ := Send(Notice);
        KillChild(now);
      }
    }

    ghost function Pipes(): ((string, bool), (string, bool))
      reads this
    {
      ((readOut, outOpen), (readErr, errOpen))
    }

    /** Read whichever pipes are ready. */
    method Drain(t: Tick) returns (lost: bool)
      requires OutputExact() && TickFits(t)
      modifies ch, `pieces, `total, `readOut, `readErr, `outOpen, `errOpen
      ensures OutputExact() && ch.incoming == old(ch.incoming) && (lost ==> ch.room == 0)
      ensures !lost ==> Pipes() == (Pipe(old(Pipes().0), t.out), Pipe(old(Pipes().1), t.err))
      ensures lost ==> readOut == Pipe(old(Pipes().0), t.out).0 && readErr in {old(readErr), Pipe(old(Pipes().1), t.err).0}
      ensures total >= old(total)
    {
      lost := false;
      if outOpen && t.out.Some? {
        var open := Pump(Out, t.out.value);
        outOpen := open == Some(true);
        if open.None? { return true; }
      }
      if errOpen && t.err.Some? {
        var open := Pump(Err, t.err.value);
        errOpen := open == Some(true);
        if open.None? { return true; }
      }
    }

    /** What the loop does with a session that is readable: in RUN mode the client must keep silent. */
    method Hear(now: int) returns (lost: bool)
      modifies ch`incoming, ch`cuts, `inOpen, `killed, `tkill, `childIn, `childRoom
      ensures var (f, rest) := NextClientFrame(old(ch.incoming));
        if rules.interactive then ch.incoming == rest && lost == f.Violation? && Kid() == Offer(old(Kid()), f)
        else lost && ch.incoming == old(ch.incoming) && Kid() == old(Kid())
    {
      if !rules.interactive { return true; }
      var ok := RuniFrame(now);
      return !ok;
    }

    /** The child and the client's unread bytes. */
    ghost function Inside(): Inner
      reads this, ch
    {
      Inner(Kid(), ch.incoming)
    }

    /** On the turn that loses the session, standard output was read, and standard error unless a write failed first. */
    ghost predicate LostOutput(t: Tick, was: ((string, bool), (string, bool)))
      reads this, ch
    {
      readOut == Pipe(was.0, t.out).0 && (readErr == Pipe(was.1, t.err).0 || (ch.room == 0 && readErr == was.1.0))
    }

    /** The ready pipes and the session, in the order the loop looks at them. */
    method Ready(t: Tick) returns (lost: bool)
      requires Valid() && TickFits(t)
      modifies ch, `inOpen, `killed, `tkill, `childIn, `childRoom,
        `pieces, `total, `readOut, `readErr, `outOpen, `errOpen, `capped
      ensures OutputExact()
      ensures !lost ==> Valid() && Inside() == NextInner(rules, old(Inside()), t, total) && KeepsRules(rules, old(ch.incoming), t)
      ensures !lost ==> Pipes() == (Pipe(old(Pipes().0), t.out), Pipe(old(Pipes().1), t.err))
      ensures lost ==> LostOutput(t, old(Pipes())) && LostOn(rules, ch.room, ch.incoming, t, old(ch.incoming)) && childIn == old(childIn)
    {
      lost := Drain(t);
      if !lost { lost := React(t); }
    }

    /** Once the pipes have been read: the cap, then the session. */
    method React(t: Tick) returns (lost: bool)
      requires OutputExact() && (capped ==> killed > 0 && PastCap(rules, total))
      modifies ch, `inOpen, `killed, `tkill, `childIn, `childRoom, `pieces, `capped
      ensures Valid()
      ensures !lost ==> Inside() == NextInner(rules, old(Inside()), t, total) && KeepsRules(rules, old(ch.incoming), t)
      ensures lost ==> LostOn(rules, ch.room, ch.incoming, t, old(ch.incoming)) && childIn == old(childIn)
    {
      CheckCap(t.now);
      lost := false;
      if t.session { lost := Hear(t.now); }
    }

    static predicate TickFits(t: Tick) {
      (t.out.Some? ==> |t.out.value| <= FRAME_MAX) && (t.err.Some? ==> |t.err.value| <= FRAME_MAX)
    }

    /** A child still there long enough after the first signal is killed outright. */
    method Escalate(now: int)
      requires Valid()
      modifies `killed
      ensures Valid() && Kid() == old(Kid())
      ensures killed == if old(killed) == 1 && now - tkill >= KILL_GRACE then 2 else old(killed)
    {
      if killed == 1 && now - tkill >= KILL_GRACE {
        killed := 2;
      }
    }

    /** Reap the child if it can be; stop when both pipes are at their end, waiting for it if need be. */
    method Settle(t: Tick, final: Status) returns (v: Verdict)
      requires Valid()
      modifies `reaped, `status
      ensures Valid() && !v.Lost? && Inside() == old(Inside()) && Pipes() == old(Pipes())
      ensures v.Over? <==> !outOpen && !errOpen
      ensures ReapedBy(v, if old(reaped) then Some(old(status)) else t.exited, final)
    {
      if !reaped && t.exited.Some? {
        reaped, status := true, t.exited.value;
      }
      if !outOpen && !errOpen {
        if !reaped {
          reaped, status := true, final;
        }
        return Over;
      }
      return GoOn;
    }

    /** The end of a turn that did not lose the session. */
    method WindUp(t: Tick, final: Status) returns (v: Verdict)
      requires Valid()
      modifies `killed, `reaped, `status
      ensures Valid() && !v.Lost? && Inside() == old(Inside()) && Pipes() == old(Pipes())
      ensures v.Over? <==> !outOpen && !errOpen
      ensures ReapedBy(v, if old(reaped) then Some(old(status)) else t.exited, final)
    {
      Escalate(t.now);
      v := Settle(t, final);
    }

    /** The child has been reaped if its end is `known`, or if the job is over. */
    ghost predicate ReapedBy(v: Verdict, known: Option<Status>, final: Status)
      reads this
    {
      && (v.GoOn? ==> (if reaped then Some(status) else None) == known)
      && (v.Over? ==> reaped && status == if known.Some? then known.value else final)
    }

    /** One turn of the loop. `final` is what waiting for the child gives once both pipes are at their end. */
    method Turn(t: Tick, final: Status) returns (v: Verdict)
      requires Valid() && TickFits(t)
      modifies this, ch
      ensures OutputExact() && before == old(before)
      ensures v.Over? <==> !v.Lost? && !outOpen && !errOpen
      ensures ReapedBy(v, if old(reaped) then Some(old(status)) else t.exited, final)
      ensures !v.Lost? ==> Valid() && Inside() == NextInner(rules, old(Inside()), t, total) && KeepsRules(rules, old(ch.incoming), t)
      ensures !v.Lost? ==> Pipes() == (Pipe(old(Pipes().0), t.out), Pipe(old(Pipes().1), t.err))
      ensures v.Lost? ==> LostOutput(t, old(Pipes())) && LostOn(rules, ch.room, ch.incoming, t, old(ch.incoming))
      ensures v.Lost? ==> childIn == old(childIn) && killed > 0
    {
      var lost := Ready(t);
      if lost {
        KillChild(t.now);
        return Lost;
      }
      v := WindUp(t, final);
    }

    /** The supervisor after the turns `done`, the client having sent `s`. */
    ghost predicate Follows(s: string, done: seq<Tick>)
      reads this, ch
    {
      && Pipes() == (Yield(done, Out), Yield(done, Err))
      && (if reaped then Some(status) else None) == Reaped(done)
      && Inside() == After(rules, s, done) && Obedient(rules, s, done)
    }

    method Proceed(t: Tick, final: Status, ghost s: string, ghost done: seq<Tick>) returns (v: Verdict)
      requires Valid() && TickFits(t) && Follows(s, done)
      modifies this, ch
      ensures OutputExact() && before == old(before)
      ensures v.GoOn? ==> Valid() && Follows(s, done + [t]) && (Yield(done + [t], Out).1 || Yield(done + [t], Err).1)
      ensures v.Over? ==> Valid() && Ended(s, done + [t], final)
      ensures v.Lost? ==> LostAfter(s, done, t)
    {
      ScheduleSnoc(rules, s, done, t);
      v := Turn(t, final);
    }

    /** Both pipes are at their end and the child has been reaped. */
    ghost predicate Ended(s: string, done: seq<Tick>, final: Status)
      reads this, ch
    {
      && Pipes() == (Yield(done, Out), Yield(done, Err)) && !outOpen && !errOpen
      && reaped && status == EndOf(done, final)
      && Inside() == After(rules, s, done) && Obedient(rules, s, done)
    }

    /** The session was lost on the turn after `done`, which gave the child nothing. */
    ghost predicate LostAfter(s: string, done: seq<Tick>, t: Tick)
      reads this, ch
    {
      && readOut == Yield(done + [t], Out).0
      && (readErr == Yield(done + [t], Err).0 || (ch.room == 0 && readErr == Yield(done, Err).0))
      && childIn == After(rules, s, done).child.taken && killed > 0
      && LostOn(rules, ch.room, ch.incoming, t, After(rules, s, done).rest) && Obedient(rules, s, done)
    }
  }

  lemma ScheduleSnoc(r: Rules, s: string, done: seq<Tick>, t: Tick)
    ensures var more := done + [t];
      && Yield(more, Out) == Pipe(Yield(done, Out), t.out) && Yield(more, Err) == Pipe(Yield(done, Err), t.err)
      && Reaped(more) == (if Reaped(done).Some? then Reaped(done) else t.exited)
      && After(r, s, more) == NextInner(r, After(r, s, done), t, Total(more))
      && (Obedient(r, s, more) <==> Obedient(r, s, done) && KeepsRules(r, After(r, s, done).rest, t))
  {
    assert (done + [t])[..|done|] == done;
  }

  /** How a supervised job left its session: None if the schedule stops with the job still running, -2 if the session was lost, else the exit code. */
  datatype Outcome = Outcome(code: Option<int>, childIn: string, killed: bool)

  /** What is left of the session: the client's unread bytes, and how much more it takes. */
  datatype Line = Line(rest: string, room: nat)

  /** The schedule went by with the session standing: all of it is as `After` and `Yield` have it. */
  ghost predicate Stood(r: Rules, s: string, done: seq<Tick>, o: Outcome, pieces: seq<Piece>, rest: string) {
    && Payload(pieces, Err) == Yield(done, Err).0 && Obedient(r, s, done)
    && Notices(pieces) == (if 0 < r.cap < Total(done) then 1 else 0)
    && var j := After(r, s, done);
       o.childIn == j.child.taken && o.killed == j.child.killed && rest == j.rest
  }

  /** The session was lost on the last turn, for one of three reasons, and that turn gave the child nothing. */
  ghost predicate WasLost(r: Rules, s: string, done: seq<Tick>, o: Outcome, pieces: seq<Piece>, l: Line) {
    && done != [] && o.killed && Obedient(r, s, done[..|done| - 1])
    && var n := |done| - 1;
       var was := After(r, s, done[..n]);
       && (Payload(pieces, Err) == Yield(done, Err).0 || (l.room == 0 && Payload(pieces, Err) == Yield(done[..n], Err).0))
       && o.childIn == was.child.taken && LostOn(r, l.room, l.rest, done[n], was.rest)
  }

  /** What a job has done to its session after the turns `done`. */
  ghost predicate Delivered(r: Rules, s: string, done: seq<Tick>, final: Status, o: Outcome, pieces: seq<Piece>, l: Line) {
    && Notices(pieces) <= 1 && Payload(pieces, Out) == Yield(done, Out).0
    && (if o.code == Some(-2) then WasLost(r, s, done, o, pieces, l) else Stood(r, s, done, o, pieces, l.rest))
    && (o.code.None? ==> Yield(done, Out).1 || Yield(done, Err).1)
    && (o.code.Some? && o.code != Some(-2) ==>
          && !Yield(done, Out).1 && !Yield(done, Err).1
          && Reported(EndOf(done, final), o.code.value))
  }

  /** How the child ended: as it was reaped, or as waiting for it showed. */
  function EndOf(done: seq<Tick>, final: Status): Status { if Reaped(done).Some? then Reaped(done).value else final }

  /** The code of a job that ended tells a small exit status, a signal, and neither; so two jobs with different exit statuses below 256 have different codes. */
  lemma CodeTells(r: Rules, s: string, done: seq<Tick>, final: Status, o: Outcome, pieces: seq<Piece>, l: Line)
    requires Delivered(r, s, done, final, o, pieces, l) && o.code.Some? && o.code != Some(-2)
    ensures var e, code := EndOf(done, final), o.code.value;
      && (code == -1 <==> e.NoStatus?)
      && (e.ExitedWith? && e.code < 256 ==> code == e.code)
      && (e.Signaled? && e.sig < 128 ==> code == 128 + e.sig)
  {
    Congruent(EndOf(done, final), o.code.value);
  }

  lemma Congruent(e: Status, code: int)
    requires Reported(e, code)
    ensures e.ExitedWith? && e.code < 256 ==> code == e.code
    ensures e.Signaled? && e.sig < 128 ==> code == 128 + e.sig
  {
  }

  lemma LostDelivers(sup: Supervisor, s: string, init: seq<Tick>, t: Tick, final: Status)
    requires sup.OutputExact() && sup.LostAfter(s, init, t)
    ensures Delivered(sup.rules, s, init + [t], final, Outcome(Some(-2), sup.childIn, true), sup.pieces, Line(sup.ch.incoming, sup.ch.room))
  {
    assert (init + [t])[..|init|] == init;
  }

  lemma OverDelivers(sup: Supervisor, s: string, done: seq<Tick>, final: Status)
    requires sup.Valid() && sup.Ended(s, done, final) && ExitCode(sup.status) != -2
    ensures Delivered(sup.rules, s, done, final, Outcome(Some(ExitCode(sup.status)), sup.childIn, sup.killed > 0), sup.pieces, Line(sup.ch.incoming, sup.ch.room))
  {
    CodeReported(sup.status);
    FollowedTotal(sup, done);
  }

  lemma StillDelivers(sup: Supervisor, s: string, done: seq<Tick>, final: Status)
    requires sup.Valid() && sup.Follows(s, done) && (Yield(done, Out).1 || Yield(done, Err).1)
    ensures Delivered(sup.rules, s, done, final, Outcome(None, sup.childIn, sup.killed > 0), sup.pieces, Line(sup.ch.incoming, sup.ch.room))
  {
    FollowedTotal(sup, done);
  }

  lemma FollowedTotal(sup: Supervisor, done: seq<Tick>)
    requires sup.OutputExact() && sup.Pipes() == (Yield(done, Out), Yield(done, Err))
    ensures sup.total == Total(done)
  {
  }

  /**
    The supervising loop over any schedule, ending after `turns` turns. Whatever the end,
    the session holds exactly the bytes read from each pipe, in order, and at most one
    notice. Unless the session was lost, the child, the signal and the client's unread
    bytes are those of `After`. When it was lost, it was on the last turn, for one of the
    three reasons, and that turn gave the child nothing. A code is returned on the first
    turn that finds both pipes at their end, the child having been reaped.
  */
  method LiveExec(ch: Chan, r: Rules, ticks: seq<Tick>, final: Status) returns (o: Outcome, turns: nat, ghost pieces: seq<Piece>)
    requires forall t :: t in ticks ==> Supervisor.TickFits(t)
    modifies ch
    ensures turns <= |ticks| && (o.code.None? ==> turns == |ticks|)
    ensures forall m :: 0 <= m < turns ==> Yield(ticks[..m], Out).1 || Yield(ticks[..m], Err).1
    ensures ch.room > 0 ==> ch.outgoing == old(ch.outgoing) + Wire(pieces)
    ensures Delivered(r, old(ch.incoming), ticks[..turns], final, o, pieces, Line(ch.incoming, ch.room))
  {
    var sup := new Supervisor(ch, r);
    ghost var s := ch.incoming;
    for i := 0 to |ticks|
      invariant sup.Valid() && sup.ch == ch && sup.rules == r && fresh(sup) && sup.before == old(ch.outgoing)
      invariant sup.Follows(s, ticks[..i])
      invariant forall m :: 0 <= m <= i ==> Yield(ticks[..m], Out).1 || Yield(ticks[..m], Err).1
    {
      ghost var done := ticks[..i];
      assert ticks[..i + 1] == done + [ticks[i]];
      var v := sup.Proceed(ticks[i], final, s, done);
      pieces, turns := sup.pieces, i + 1;
      if v.Lost? {
        LostDelivers(sup, s, done, ticks[i], final);
        return Outcome(Some(-2), sup.childIn, true), turns, pieces;
      }
      if v.Over? {
        OverDelivers(sup, s, done + [ticks[i]], final);
        return Outcome(Some(ExitCode(sup.status)), sup.childIn, sup.killed > 0), turns, pieces;
      }
    }
    assert ticks[..|ticks|] == ticks;
    StillDelivers(sup, s, ticks, final);
    return Outcome(None, sup.childIn, sup.killed > 0), |ticks|, sup.pieces;
  }
}
