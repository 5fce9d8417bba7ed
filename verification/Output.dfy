/**
  Output frames from the daemon to the client: `SendFile` cuts a captured stream into
  frames under the output cap, `RcStream` takes an O/E/X stream apart again.
*/
module Output {
  import opened Bytes
  import opened Decimal
  import opened Lineio

  const NOTICE := "\n[gcdsd: output truncated at cap]\n"

  // ---------------------------------------------------------------- the stream as a value

  datatype Tag = Out | Err

  /** A frame of captured output, or the notice that the cap was hit. */
  datatype Piece = Data(tag: Tag, text: string) | Notice

  function TagChar(t: Tag): char { if t == Out then 'O' else 'E' }

  function PieceTag(p: Piece): Tag { if p.Notice? then Err else p.tag }

  function PieceText(p: Piece): string { if p.Notice? then NOTICE else p.text }

  function PieceWire(p: Piece): string { Frame(TagChar(PieceTag(p)), PieceText(p)) }

  predicate Sendable(ps: seq<Piece>) {
    forall p :: p in ps ==> 1 <= |PieceText(p)| <= FRAME_MAX
  }

  function Wire(ps: seq<Piece>): string {
    if ps == [] then "" else PieceWire(ps[0]) + Wire(ps[1..])
  }

  /** All text of one stream, in order. */
  function Text(ps: seq<Piece>, t: Tag): string {
    if ps == [] then "" else (if PieceTag(ps[0]) == t then PieceText(ps[0]) else "") + Text(ps[1..], t)
  }

  /** Captured text of one stream, notices aside. */
  function Payload(ps: seq<Piece>, t: Tag): string {
    if ps == [] then "" else (if ps[0] .Data? && ps[0].tag == t then ps[0].text else "") + Payload(ps[1..], t)
  }

  function Notices(ps: seq<Piece>): nat {
    if ps == [] then 0 else (if ps[0].Notice? then 1 else 0) + Notices(ps[1..])
  }

  function ExitLine(code: int): string { "X " + Print(code % 256) + "\n" }

  // ---------------------------------------------------------------- the client

  datatype Streamed = Streamed(code: int, out: string, err: string, rest: string)

  /** What one line of the stream leads to, the bytes after it being `rest`. */
  datatype Step = More(tag: Tag, text: string, rest: string) | Finished(code: int, rest: string)

  function OnLine(l: string, rest: string): (r: Step)
    ensures r.More? ==> |r.rest| < |rest|
  {
    if (At(l, 0) == 'O' || At(l, 0) == 'E') && At(l, 1) == ' ' then
      var n := Atol(l[2..]);
      if n < 1 || n > FRAME_MAX then Finished(-1, rest)
      else if n > |rest| then Finished(-1, "")
      else More(if At(l, 0) == 'O' then Out else Err, rest[..n], rest[n..])
    else if At(l, 0) == 'X' && At(l, 1) == ' ' then Finished(Atol(l[2..]) % 256, rest)
    else Finished(-1, rest)
  }

  function NextStep(s: string): (r: Step)
    ensures r.More? ==> |r.rest| < |s|
  {
    var (line, rest) := ReadLine(s, LINE_MAX, "");
    if line.Got? then OnLine(line.text, rest) else Finished(-1, rest)
  }

  /** What the client makes of a byte stream: text per stream, exit code or -1, and what it left unread. */
  function Consume(s: string): Streamed
    decreases |s|
  {
    match NextStep(s)
    case Finished(code, rest) => Streamed(code, "", "", rest)
    case More(tag, text, rest) => Prepend(tag, text, Consume(rest))
  }

  function Prepend(tag: Tag, text: string, r: Streamed): Streamed {
    if tag == Out then r.(out := text + r.out) else r.(err := text + r.err)
  }

  /** One server line during streaming: a frame's payload is read, an exit code or anything else ends it. */
  method RcOutFrame(ch: Chan, line: string) returns (step: Step)
    modifies ch
    ensures step == OnLine(line, old(ch.incoming)) && ch.incoming == step.rest
  {
    if (At(line, 0) == 'O' || At(line, 0) == 'E') && At(line, 1) == ' ' {
      var n := Atol(line[2..]);
      if n < 1 || n > FRAME_MAX { return Finished(-1, ch.incoming); }
      var ok, buf := ch.ReadN(n);
      if !ok { return Finished(-1, ch.incoming); }
      return More(if At(line, 0) == 'O' then Out else Err, buf, ch.incoming);
    }
    if At(line, 0) == 'X' && At(line, 1) == ' ' {
      return Finished(Atol(line[2..]) % 256, ch.incoming);
    }
    return Finished(-1, ch.incoming);
  }

  method RcStream(ch: Chan) returns (code: int, out: string, err: string)
    modifies ch
    ensures Streamed(code, out, err, ch.incoming) == Consume(old(ch.incoming))
  {
    out, err := "", "";
    ghost var all := Consume(ch.incoming);
    assert "" + all.out == all.out && "" + all.err == all.err;
    while true
      invariant Sofar(all, out, err, ch.incoming)
      decreases |ch.incoming|
    {
      ghost var before := ch.incoming;
      assert out + "" == out && err + "" == err;
      var r := ch.GetLine(LINE_MAX);
      if !r.Got? { return -1, out, err; }
      var step := RcOutFrame(ch, r.text);
      assert step == NextStep(before);
      if step.Finished? { return step.code, out, err; }
      MoreText(all, out, err, before, step);
      if step.tag == Out { out := out + step.text; } else { err := err + step.text; }
    }
  }

  ghost predicate Sofar(all: Streamed, out: string, err: string, incoming: string) {
    var r := Consume(incoming); all == r.(out := out + r.out, err := err + r.err)
  }

  lemma MoreText(all: Streamed, out: string, err: string, before: string, step: Step)
    requires Sofar(all, out, err, before) && step == NextStep(before) && step.More?
    ensures if step.tag == Out then Sofar(all, out + step.text, err, step.rest) else Sofar(all, out, err + step.text, step.rest)
  {
    var r := Consume(step.rest);
    Assoc(out, step.text, r.out);
    Assoc(err, step.text, r.err);
  }

  /** The lines as the protocol has them: O for standard output, E for standard error and the notice, X for the exit code. */
  lemma LinesAre(p: Piece, code: int)
    requires 0 <= code < 256
    ensures PieceWire(p) == (if p.Data? && p.tag == Out then "O " else "E ") + Print(|PieceText(p)|) + "\n" + PieceText(p)
    ensures ExitLine(code) == "X " + Print(code) + "\n"
  {
    assert "O" + " " == "O " && "E" + " " == "E ";
  }

  /** Anything else ends the stream with -1: another line, a length out of bounds, a frame cut short. */
  lemma StreamBreaks(line: string, rest: string)
    ensures !("O " <= line) && !("E " <= line) && !("X " <= line) ==> OnLine(line, rest) == Finished(-1, rest)
    ensures "O " <= line || "E " <= line ==>
      var n := Atol(line[2..]);
      && (n < 1 || n > 4096 ==> OnLine(line, rest) == Finished(-1, rest))
      && (|rest| < n <= 4096 ==> OnLine(line, rest) == Finished(-1, ""))
  {
  }

  lemma ConsumePiece(p: Piece, rest: string)
    requires 1 <= |PieceText(p)| <= FRAME_MAX
    ensures Consume(PieceWire(p) + rest) == Prepend(PieceTag(p), PieceText(p), Consume(rest))
  {
    PieceStep(p, rest);
  }

  lemma PieceStep(p: Piece, rest: string)
    requires 1 <= |PieceText(p)| <= FRAME_MAX
    ensures NextStep(PieceWire(p) + rest) == More(PieceTag(p), PieceText(p), rest)
  {
    var text, tag := PieceText(p), TagChar(PieceTag(p));
    HeaderReads(tag, |text|, text + rest, LINE_MAX);
    assert PieceWire(p) + rest == Header(tag, |text|) + "\n" + (text + rest);
    assert (text + rest)[..|text|] == text && (text + rest)[|text|..] == rest;
  }

  lemma ConsumeExit(code: int, rest: string)
    ensures Consume(ExitLine(code) + rest) == Streamed(code % 256, "", "", rest)
  {
    HeaderReads('X', code % 256, rest, LINE_MAX);
    assert ExitLine(code) + rest == Header('X', code % 256) + "\n" + rest;
  }

  /**
    Frame round trip: for every sequence of frames with any text, exit code and whatever
    follows, the client delivers exactly the text of each stream, returns the code and
    reads not one byte further.
  */
  lemma {:induction false} StreamRoundTrip(ps: seq<Piece>, code: int, rest: string)
    requires Sendable(ps)
    ensures Consume(Wire(ps) + (ExitLine(code) + rest)) == Streamed(code % 256, Text(ps, Out), Text(ps, Err), rest)
  {
    if ps == [] {
      ConsumeExit(code, rest);
      assert "" + (ExitLine(code) + rest) == ExitLine(code) + rest;
    } else {
      assert ps[0] in ps;
      var tail := Wire(ps[1..]) + (ExitLine(code) + rest);
      StreamRoundTrip(ps[1..], code, rest);
      ConsumePiece(ps[0], tail);
      Assoc(PieceWire(ps[0]), Wire(ps[1..]), ExitLine(code) + rest);
    }
  }

  // ---------------------------------------------------------------- the daemon

  function Min(a: int, b: int): int { if a < b then a else b }

  /**
    The frames sent for a captured file from position `i` on, `base` bytes having gone out
    before the file; a cap of 0 means none.
  */
  function PiecesFrom(tag: Tag, data: string, i: nat, chunk: nat, cap: nat, base: nat): seq<Piece>
    requires 1 <= chunk && i <= |data|
    decreases |data| - i
  {
    if i == |data| then []
    else
      var n := Min(chunk, |data| - i);
      if cap > 0 && base + i + n > cap then CutPieces(tag, data, i, cap - base)
      else [Data(tag, data[i..i + n])] + PiecesFrom(tag, data, i + n, chunk, cap, base)
  }

  /** The last data before position `end`, if there is any, and the notice. */
  function CutPieces(tag: Tag, data: string, i: nat, end: int): seq<Piece>
    requires end < |data|
  {
    (if i < end then [Data(tag, data[i..end])] else []) + [Notice]
  }

  function FilePieces(tag: Tag, data: string, chunk: nat, cap: nat, base: nat): seq<Piece>
    requires 1 <= chunk
  {
    PiecesFrom(tag, data, 0, chunk, cap, base)
  }

  /** How much of the file goes out. */
  function Allowed(data: string, cap: nat, base: nat): (k: nat)
    requires cap > 0 ==> base <= cap
    ensures k <= |data|
  {
    if cap > 0 && base + |data| > cap then cap - base else |data|
  }

  lemma PieceCons(p: Piece, ps: seq<Piece>)
    ensures Wire([p] + ps) == PieceWire(p) + Wire(ps)
  {
    assert ([p] + ps)[1..] == ps;
  }

  lemma PayloadCons(p: Piece, ps: seq<Piece>, t: Tag)
    ensures Payload([p] + ps, t) == (if p.Data? && p.tag == t then p.text else "") + Payload(ps, t)
  {
    assert ([p] + ps)[1..] == ps;
  }

  /** What is sent of a file from position `i` on is the data up to what the cap allows, all under its own tag. */
  lemma {:induction false} PiecesPayload(tag: Tag, data: string, i: nat, chunk: nat, cap: nat, base: nat, t: Tag)
    requires 1 <= chunk && i <= |data| && (cap > 0 ==> base + i <= cap)
    ensures Covers(PiecesFrom(tag, data, i, chunk, cap, base), data, i, Allowed(data, cap, base), tag, t)
    decreases |data| - i
  {
    if i < |data| {
      var n := Min(chunk, |data| - i);
      if cap > 0 && base + i + n > cap {
        PiecesCut(tag, data, i, chunk, cap, base, t);
      } else {
        PiecesPayload(tag, data, i + n, chunk, cap, base, t);
        PiecesBlock(tag, data, i, chunk, cap, base, t);
      }
    }
  }

  /** The data of `ps` on stream `t` is that of the file from `i` to `j`, if the file is that stream's. */
  ghost predicate Covers(ps: seq<Piece>, data: string, i: nat, j: nat, tag: Tag, t: Tag) {
    i <= j <= |data| && Payload(ps, t) == if t == tag then data[i..j] else ""
  }

  lemma PiecesBlock(tag: Tag, data: string, i: nat, chunk: nat, cap: nat, base: nat, t: Tag)
    requires 1 <= chunk && i < |data| && (cap > 0 ==> base + i + Min(chunk, |data| - i) <= cap)
    requires Covers(PiecesFrom(tag, data, i + Min(chunk, |data| - i), chunk, cap, base), data, i + Min(chunk, |data| - i), Allowed(data, cap, base), tag, t)
    ensures Covers(PiecesFrom(tag, data, i, chunk, cap, base), data, i, Allowed(data, cap, base), tag, t)
  {
    var j := i + Min(chunk, |data| - i);
    BlockPayload(tag, data, i, j, Allowed(data, cap, base), PiecesFrom(tag, data, j, chunk, cap, base), t);
  }

  lemma PiecesCut(tag: Tag, data: string, i: nat, chunk: nat, cap: nat, base: nat, t: Tag)
    requires 1 <= chunk && i < |data| && 0 < cap && base + i <= cap < base + i + Min(chunk, |data| - i)
    ensures Covers(PiecesFrom(tag, data, i, chunk, cap, base), data, i, Allowed(data, cap, base), tag, t)
  {
    CutPayload(tag, data, i, cap - base, t);
  }

  lemma BlockPayload(tag: Tag, data: string, i: nat, j: nat, k: nat, rest: seq<Piece>, t: Tag)
    requires i <= j <= k && Covers(rest, data, j, k, tag, t)
    ensures Covers([Data(tag, data[i..j])] + rest, data, i, k, tag, t)
  {
    PayloadCons(Data(tag, data[i..j]), rest, t);
    Joined(data, i, j, k);
  }

  lemma Joined(data: string, i: nat, j: nat, k: nat)
    requires i <= j <= k <= |data|
    ensures data[i..j] + data[j..k] == data[i..k]
  {
  }

  lemma CutPayload(tag: Tag, data: string, i: nat, end: nat, t: Tag)
    requires i <= end < |data|
    ensures Covers(CutPieces(tag, data, i, end), data, i, end, tag, t)
  {
    assert [Notice] + [] == [Notice];
    PayloadCons(Notice, [], t);
    if i < end {
      PayloadCons(Data(tag, data[i..end]), [Notice], t);
    } else {
      assert [] + [Notice] == [Notice];
    }
  }

  lemma {:induction false} PiecesSendable(tag: Tag, data: string, i: nat, chunk: nat, cap: nat, base: nat)
    requires 1 <= chunk <= FRAME_MAX && i <= |data| && (cap > 0 ==> base + i <= cap)
    ensures Sendable(PiecesFrom(tag, data, i, chunk, cap, base))
    decreases |data| - i
  {
    if i < |data| {
      var n := Min(chunk, |data| - i);
      if !(cap > 0 && base + i + n > cap) {
        PiecesSendable(tag, data, i + n, chunk, cap, base);
      }
    }
  }

  /** What is sent of a file ends with the notice exactly when the cap cut it, and holds no other. */
  lemma {:induction false} NoticeWhenCut(tag: Tag, data: string, i: nat, chunk: nat, cap: nat, base: nat)
    requires 1 <= chunk && i <= |data| && (cap > 0 ==> base + i <= cap)
    ensures var ps, cut := PiecesFrom(tag, data, i, chunk, cap, base), cap > 0 && base + |data| > cap && i < |data|;
      Notices(ps) == (if cut then 1 else 0) && (cut ==> ps != [] && ps[|ps| - 1] == Notice)
    decreases |data| - i
  {
    if i < |data| {
      var n := Min(chunk, |data| - i);
      if cap > 0 && base + i + n > cap {
        NoticeOfCut(tag, data, i, cap - base);
      } else {
        NoticeWhenCut(tag, data, i + n, chunk, cap, base);
        NoticesCons(Data(tag, data[i..i + n]), PiecesFrom(tag, data, i + n, chunk, cap, base));
      }
    }
  }

  lemma NoticesCons(p: Piece, ps: seq<Piece>)
    ensures Notices([p] + ps) == (if p.Notice? then 1 else 0) + Notices(ps)
  {
    assert ([p] + ps)[1..] == ps;
  }

  lemma NoticeOfCut(tag: Tag, data: string, i: nat, end: int)
    requires i <= end < |data|
    ensures var ps := CutPieces(tag, data, i, end); Notices(ps) == 1 && ps != [] && ps[|ps| - 1] == Notice
  {
    NoticesCons(Notice, []);
    assert [Notice] + [] == [Notice];
    if i < end { NoticesCons(Data(tag, data[i..end]), [Notice]); } else { assert [] + [Notice] == [Notice]; }
  }

  lemma {:induction false} NoticesAppend(a: seq<Piece>, b: seq<Piece>)
    ensures Notices(a + b) == Notices(a) + Notices(b)
  {
    if a == [] {
      assert a + b == b;
    } else {
      assert (a + b)[1..] == a[1..] + b;
      NoticesAppend(a[1..], b);
    }
  }

  /** The client is told of a cut: once for each of the two files the cap left something out of. */
  lemma CutIsTold(out: string, err: string, chunk: nat, cap: nat)
    requires 1 <= chunk
    ensures Notices(ResultPieces(out, err, chunk, cap)) ==
      (if 0 < cap < |out| then 1 else 0) + (if 0 < cap < |out| + |err| && err != "" then 1 else 0)
  {
    var sent := Allowed(out, cap, 0);
    NoticeWhenCut(Out, out, 0, chunk, cap, 0);
    NoticeWhenCut(Err, err, 0, chunk, cap, sent);
    NoticesAppend(FilePieces(Out, out, chunk, cap, 0), FilePieces(Err, err, chunk, cap, sent));
  }

  method SendPiece(ch: Chan, p: Piece) returns (ok: bool)
    requires 1 <= |PieceText(p)| <= FRAME_MAX
    modifies ch
    ensures ok ==> ch.outgoing == old(ch.outgoing) + PieceWire(p)
    ensures ch.incoming == old(ch.incoming)
    ensures ch.room <= old(ch.room) && (!ok ==> ch.room == 0)
  {
    ok := ch.PutFrame(TagChar(PieceTag(p)), PieceText(p));
  }

  /** The last frame under the cap, if there is room for one, and the notice; a lost notice is not an error. */
  method SendCut(ch: Chan, tag: Tag, data: string, i: nat, end: nat, ghost todo: string) returns (ok: bool)
    requires i <= end < |data| && end - i <= FRAME_MAX && todo == Wire(CutPieces(tag, data, i, end))
    modifies ch
    ensures ch.room <= old(ch.room) && (!ok ==> ch.room == 0) && ch.incoming == old(ch.incoming)
    ensures ch.room > 0 ==> ch.outgoing == old(ch.outgoing) + todo
  {
    PieceCons(Notice, []);
    assert [Notice] + [] == [Notice];
    if end > i {
      PieceCons(Data(tag, data[i..end]), [Notice]);
      ok := SendPiece(ch, Data(tag, data[i..end]));
      if !ok { return; }
      Assoc(old(ch.outgoing), PieceWire(Data(tag, data[i..end])), PieceWire(Notice));
    } else {
      assert [] + [Notice] == [Notice];
    }
    var _ := SendPiece(ch, Notice);
    ok := true;
  }

  /** The step of the sending loop at position `i`, `left` being what it has yet to send: the cut under the cap, or a block. */
  predicate Steps(left: nat -> string, tag: Tag, data: string, chunk: nat, cap: nat, base: nat, i: nat)
    requires 1 <= chunk
  {
    if i >= |data| || (cap > 0 && base + i > cap) then true
    else
      var n := Min(chunk, |data| - i);
      if cap > 0 && base + i + n > cap then left(i) == Wire(CutPieces(tag, data, i, cap - base))
      else left(i) == PieceWire(Data(tag, data[i..i + n])) + left(i + n)
  }

  lemma CutWire(tag: Tag, data: string, i: nat, chunk: nat, cap: nat, base: nat)
    requires 1 <= chunk && i < |data| && 0 < cap && base + i <= cap < base + i + Min(chunk, |data| - i)
    ensures Wire(PiecesFrom(tag, data, i, chunk, cap, base)) == Wire(CutPieces(tag, data, i, cap - base))
  {
  }

  lemma BlockWire(tag: Tag, data: string, i: nat, j: nat, chunk: nat, cap: nat, base: nat)
    requires 1 <= chunk && i < |data| && j == i + Min(chunk, |data| - i) && (cap > 0 ==> base + j <= cap)
    ensures Wire(PiecesFrom(tag, data, i, chunk, cap, base)) == PieceWire(Data(tag, data[i..j])) + Wire(PiecesFrom(tag, data, j, chunk, cap, base))
  {
    PieceCons(Data(tag, data[i..j]), PiecesFrom(tag, data, j, chunk, cap, base));
  }

  lemma LeftSteps(left: nat -> string, tag: Tag, data: string, chunk: nat, cap: nat, base: nat, i: nat)
    requires 1 <= chunk && forall k: nat {:trigger left(k)} :: k <= |data| ==> left(k) == Wire(PiecesFrom(tag, data, k, chunk, cap, base))
    ensures Steps(left, tag, data, chunk, cap, base, i)
  {
    if i < |data| && (cap > 0 ==> base + i <= cap) {
      var j := i + Min(chunk, |data| - i);
      if cap > 0 && base + j > cap {
        CutWire(tag, data, i, chunk, cap, base);
      } else {
        BlockWire(tag, data, i, j, chunk, cap, base);
      }
    }
  }

  /** What the sending loop has left to do at each position. */
  lemma WhatIsLeft(tag: Tag, data: string, chunk: nat, cap: nat, base: nat) returns (left: nat -> string)
    requires 1 <= chunk
    ensures left(|data|) == "" && left(0) == Wire(FilePieces(tag, data, chunk, cap, base))
    ensures forall i: nat :: Steps(left, tag, data, chunk, cap, base, i)
  {
    left := (k: nat) => if k <= |data| then Wire(PiecesFrom(tag, data, k, chunk, cap, base)) else "";
    forall i: nat ensures Steps(left, tag, data, chunk, cap, base, i) { LeftSteps(left, tag, data, chunk, cap, base, i); }
  }

  /** A whole block. */
  method SendWhole(ch: Chan, tag: Tag, data: string, i: nat, n: nat, cap: nat, base: nat, ghost left: nat -> string)
    returns (ok: bool, ghost w: string)
    requires i < |data| && n == Min(ch.Chunk(), |data| - i) && (cap > 0 ==> base + i + n <= cap)
    requires Steps(left, tag, data, ch.Chunk(), cap, base, i)
    modifies ch
    ensures ch.room <= old(ch.room) && (!ok ==> ch.room == 0) && ch.incoming == old(ch.incoming)
    ensures ok ==> ch.outgoing == old(ch.outgoing) + w
    ensures left(i) == w + left(i + n)
  {
    var p := Data(tag, data[i..i + n]);
    w := PieceWire(p);
    ok := SendPiece(ch, p);
  }

  /** The last of the file under the cap. */
  method SendLast(ch: Chan, tag: Tag, data: string, i: nat, cap: nat, base: nat, ghost left: nat -> string) returns (ok: bool)
    requires i < |data| && 0 < cap && base + i <= cap < base + i + Min(ch.Chunk(), |data| - i)
    requires Steps(left, tag, data, ch.Chunk(), cap, base, i)
    modifies ch
    ensures ch.room <= old(ch.room) && (!ok ==> ch.room == 0) && ch.incoming == old(ch.incoming)
    ensures ch.room > 0 ==> ch.outgoing == old(ch.outgoing) + left(i)
  {
    ok := SendCut(ch, tag, data, i, cap - base, left(i));
  }

  lemma Moved(start: string, done: string, todo: string, w: string, more: string)
    requires todo == w + more
    ensures done + todo == (done + w) + more && start + done + w == start + (done + w)
  {
  }

  /**
    Send a captured file in blocks; a file that does not exist is as an empty one. Unless
    the peer has stopped taking bytes, the call succeeds and exactly the frames of
    `FilePieces` go out.
  */
  method SendFile(ch: Chan, tag: Tag, data: string, cap: nat, sent: nat) returns (ok: bool, total: nat)
    requires cap > 0 ==> sent <= cap
    modifies ch
    ensures ch.room <= old(ch.room) && (!ok ==> ch.room == 0) && ch.incoming == old(ch.incoming)
    ensures cap > 0 ==> total <= cap
    ensures ch.room > 0 ==>
      && ch.outgoing == old(ch.outgoing) + Wire(FilePieces(tag, data, ch.Chunk(), cap, sent))
      && total == sent + Allowed(data, cap, sent)
  {
    var i := 0;
    total := sent;
    ghost var left := WhatIsLeft(tag, data, ch.Chunk(), cap, sent);
    ghost var start, done, all := ch.outgoing, "", left(0);
    assert done + all == all && start + done == start;
    while i < |data|
      invariant i <= |data| && total == sent + i && (cap > 0 ==> total <= cap)
      invariant ch.room <= old(ch.room) && ch.incoming == old(ch.incoming)
      invariant all == done + left(i) && ch.outgoing == start + done
    {
      var n := Min(ch.Chunk(), |data| - i);
      assert Steps(left, tag, data, ch.Chunk(), cap, sent, i);
      if cap > 0 && total + n > cap {
        Assoc(start, done, left(i));
        ok := SendLast(ch, tag, data, i, cap, sent, left);
        if ok { total := cap; }
        return;
      }
      ghost var w;
      ok, w := SendWhole(ch, tag, data, i, n, cap, sent, left);
      if !ok { return; }
      Moved(start, done, left(i), w, left(i + n));
      done := done + w;
      total, i := total + n, i + n;
    }
    assert done + "" == done;
    ok := true;
  }

  /**
    The cap over both streams: notices aside, what goes out is the prefix of length
    min(cap, total) of standard output followed by standard error, each under its tag.
  */
  lemma CapIsPrefix(out: string, err: string, chunk: nat, cap: nat)
    requires 1 <= chunk <= FRAME_MAX
    ensures var ps := ResultPieces(out, err, chunk, cap);
      && Sendable(ps)
      && Payload(ps, Out) + Payload(ps, Err) == (if cap == 0 then out + err else (out + err)[..Min(cap, |out + err|)])
      && Payload(ps, Out) <= out && Payload(ps, Err) <= err
  {
    var sent := Allowed(out, cap, 0);
    PiecesSendable(Out, out, 0, chunk, cap, 0);
    PiecesSendable(Err, err, 0, chunk, cap, sent);
    ResultPayload(out, err, chunk, cap, Out);
    ResultPayload(out, err, chunk, cap, Err);
    CutBoth(out, err, sent, Allowed(err, cap, sent));
  }

  lemma ResultPayload(out: string, err: string, chunk: nat, cap: nat, t: Tag)
    requires 1 <= chunk
    ensures Payload(ResultPieces(out, err, chunk, cap), t) ==
      if t == Out then out[0..Allowed(out, cap, 0)] else err[0..Allowed(err, cap, Allowed(out, cap, 0))]
  {
    var sent := Allowed(out, cap, 0);
    PiecesPayload(Out, out, 0, chunk, cap, 0, t);
    PiecesPayload(Err, err, 0, chunk, cap, sent, t);
    PayloadAppend(FilePieces(Out, out, chunk, cap, 0), FilePieces(Err, err, chunk, cap, sent), t);
  }

  lemma CutBoth(out: string, err: string, a: nat, b: nat)
    requires a <= |out| && b <= |err| && (b > 0 ==> a == |out|)
    ensures out[0..a] + err[0..b] == (out + err)[..a + b]
  {
  }

  /** The frames of an answer to RESULT: standard output, then standard error under what the cap leaves. */
  function ResultPieces(out: string, err: string, chunk: nat, cap: nat): seq<Piece>
    requires 1 <= chunk
  {
    FilePieces(Out, out, chunk, cap, 0) + FilePieces(Err, err, chunk, cap, Allowed(out, cap, 0))
  }

  lemma {:induction false} PayloadAppend(a: seq<Piece>, b: seq<Piece>, t: Tag)
    ensures Payload(a + b, t) == Payload(a, t) + Payload(b, t)
  {
    if a == [] {
      assert a + b == b;
    } else {
      assert (a + b)[1..] == a[1..] + b;
      PayloadAppend(a[1..], b, t);
    }
  }

  lemma {:induction false} WireAppend(a: seq<Piece>, b: seq<Piece>)
    ensures Wire(a + b) == Wire(a) + Wire(b)
  {
    if a == [] {
      assert a + b == b;
    } else {
      assert (a + b)[1..] == a[1..] + b;
      WireAppend(a[1..], b);
    }
  }

  /** Both capture files, under one cap. */
  method SendFiles(ch: Chan, out: string, err: string, cap: nat) returns (ok: bool)
    modifies ch
    ensures ch.room <= old(ch.room) && (!ok ==> ch.room == 0) && ch.incoming == old(ch.incoming)
    ensures ch.room > 0 ==> ch.outgoing == old(ch.outgoing) + Wire(ResultPieces(out, err, ch.Chunk(), cap))
  {
    var sent;
    ok, sent := SendFile(ch, Out, out, cap, 0);
    if !ok { return; }
    ok, sent := SendFile(ch, Err, err, cap, sent);
    if !ok { return; }
    ghost var a, b := FilePieces(Out, out, ch.Chunk(), cap, 0), FilePieces(Err, err, ch.Chunk(), cap, Allowed(out, cap, 0));
    WireAppend(a, b);
    Assoc(old(ch.outgoing), Wire(a), Wire(b));
  }

  /** The answer to RESULT, sent from the two capture files. */
  method SendResult(ch: Chan, out: string, err: string, cap: nat, code: int) returns (ok: bool)
    modifies ch
    ensures ch.room <= old(ch.room) && ch.incoming == old(ch.incoming)
    ensures ch.room > 0 ==>
      && ok
      && ch.outgoing == old(ch.outgoing) + (Wire(ResultPieces(out, err, ch.Chunk(), cap)) + ExitLine(code))
  {
    ok := SendFiles(ch, out, err, cap);
    if !ok { return; }
    ok := ch.PutLine("X " + Print(code % 256));
    Assoc(old(ch.outgoing), Wire(ResultPieces(out, err, ch.Chunk(), cap)), ExitLine(code));
  }

  /**
    The answer, from the daemon's capture files to the client's two streams: the exit code
    arrives, each stream is the frames' text (the whole file when the cap leaves room for
    both), and nothing after the answer is read.
  */
  lemma ResultArrives(out: string, err: string, chunk: nat, cap: nat, code: int, rest: string)
    requires 1 <= chunk <= FRAME_MAX
    ensures var ps := ResultPieces(out, err, chunk, cap);
      && Consume(Wire(ps) + (ExitLine(code) + rest)) == Streamed(code % 256, Text(ps, Out), Text(ps, Err), rest)
      && (cap == 0 || |out| + |err| <= cap ==> Text(ps, Out) == out && Text(ps, Err) == err)
  {
    var ps := ResultPieces(out, err, chunk, cap);
    CapIsPrefix(out, err, chunk, cap);
    StreamRoundTrip(ps, code, rest);
    if cap == 0 || |out| + |err| <= cap {
      NoNotice(Out, out, 0, chunk, cap, 0);
      NoNotice(Err, err, 0, chunk, cap, Allowed(out, cap, 0));
      TextIsPayload(ps, Out);
      TextIsPayload(ps, Err);
      SameLengths(Payload(ps, Out), Payload(ps, Err), out, err);
    }
  }

  lemma SameLengths(a: string, b: string, out: string, err: string)
    requires a <= out && b <= err && a + b == out + err
    ensures a == out && b == err
  {
    assert |a| + |b| == |out| + |err|;
  }

  lemma {:induction false} NoNotice(tag: Tag, data: string, i: nat, chunk: nat, cap: nat, base: nat)
    requires 1 <= chunk && i <= |data| && (cap == 0 || base + |data| <= cap)
    ensures Notice !in PiecesFrom(tag, data, i, chunk, cap, base)
    decreases |data| - i
  {
    if i < |data| { NoNotice(tag, data, i + Min(chunk, |data| - i), chunk, cap, base); }
  }

  lemma {:induction false} TextIsPayload(ps: seq<Piece>, t: Tag)
    requires Notice !in ps
    ensures Text(ps, t) == Payload(ps, t)
  {
    if ps != [] {
      assert ps[0] in ps;
      TextIsPayload(ps[1..], t);
    }
  }
}
