/**
  The byte channel, and the protocol lines and frames read from and written to it. Bytes
  are Dafny characters. The network may hand over any number of bytes at a time: `cuts`
  is its schedule, and nothing proved here depends on it.
*/
module Lineio {
  import opened Bytes
  import opened Decimal

  const LINE_MAX := 1024
  const FRAME_MAX := 4096
  const SER_FRAME := 256

  datatype Line = Got(text: string) | Eio | TooLong

  // ---------------------------------------------------------------- reading, as a value

  /** What a buffer holds as a C string: everything before the first NUL. */
  function CStr(s: string): (t: string)
    ensures t <= s && '\0' !in t && ('\0' !in s ==> t == s) && (|t| < |s| ==> s[|t|] == '\0')
  {
    if s == "" || s[0] == '\0' then "" else [s[0]] + CStr(s[1..])
  }

  /**
    Read one line into a buffer of `size`, `acc` being filled so far: CR is ignored, LF ends
    it. The line is what the buffer then holds as a C string.
  */
  function ReadLine(s: string, size: int, acc: string): (r: (Line, string))
    ensures |r.1| <= |s| && (r.0.Got? ==> |r.1| < |s|)
    decreases |s|
  {
    if s == [] then (Eio, [])
    else if s[0] == '\r' then ReadLine(s[1..], size, acc)
    else if s[0] == '\n' then (Got(CStr(acc)), s[1..])
    else if |acc| >= size - 1 then (TooLong, s[1..])
    else ReadLine(s[1..], size, acc + [s[0]])
  }

  function NoCr(s: string): string {
    if s == "" then "" else (if s[0] == '\r' then "" else [s[0]]) + NoCr(s[1..])
  }

  lemma {:induction false} NoCrAppend(a: string, b: string)
    ensures NoCr(a + b) == NoCr(a) + NoCr(b)
  {
    if a == "" {
      assert a + b == b;
    } else {
      assert (a + b)[1..] == a[1..] + b;
      NoCrAppend(a[1..], b);
    }
  }

  /**
    What a line is, for every byte stream `t + tail`, where `tail` is empty or begins with
    the first line feed: the characters before the line feed but carriage returns, up to a
    NUL; when they would fill the buffer, reading stops at the one too many.
  */
  lemma {:induction false} LineIs(t: string, tail: string, size: nat, acc: string)
    requires '\n' !in t && (tail == "" || tail[0] == '\n') && |acc| < size
    ensures var (line, rest) := ReadLine(t + tail, size, acc); var kept := acc + NoCr(t);
      if |kept| >= size then line == TooLong && NoCr(rest) == (kept + NoCr(tail))[size..]
      else if tail == "" then (line, rest) == (Eio, "")
      else (line, rest) == (Got(CStr(kept)), tail[1..])
    decreases |t|
  {
    if t == "" {
      assert t + tail == tail && acc + NoCr(t) == acc;
    } else {
      assert t[0] in t;
      assert (t + tail)[1..] == t[1..] + tail;
      if t[0] == '\r' {
        LineIs(t[1..], tail, size, acc);
        assert "" + NoCr(t[1..]) == NoCr(t[1..]);
      } else {
        Assoc(acc, [t[0]], NoCr(t[1..]));
        if |acc| < size - 1 {
          LineIs(t[1..], tail, size, acc + [t[0]]);
        } else {
          NoCrAppend(t[1..], tail);
          LastKept(acc, t[0], NoCr(t[1..]), NoCr(tail), size);
        }
      }
    }
  }

  lemma LastKept(acc: string, c: char, more: string, tail: string, size: nat)
    requires |acc| == size - 1
    ensures (acc + ([c] + more) + tail)[size..] == more + tail
  {
    assert acc + ([c] + more) + tail == (acc + [c]) + (more + tail);
  }

  /** Text that can travel as one line. */
  predicate Plain(t: string) { '\n' !in t && '\r' !in t && '\0' !in t }

  lemma {:induction false} ReadLineIs(t: string, rest: string, size: int, acc: string)
    requires Plain(t) && '\0' !in acc && |acc| + |t| < size
    ensures ReadLine(t + "\n" + rest, size, acc) == (Got(acc + t), rest)
    decreases |t|
  {
    if t == [] {
      assert t + "\n" + rest == "\n" + rest;
      assert acc + t == acc;
    } else {
      assert t[0] in t;
      assert (t + "\n" + rest)[1..] == t[1..] + "\n" + rest;
      assert acc + [t[0]] + t[1..] == acc + t;
      ReadLineIs(t[1..], rest, size, acc + [t[0]]);
    }
  }

  /** The character at a position of a C string; past the end it is NUL. */
  function At(s: string, i: nat): char { if i < |s| then s[i] else '\0' }

  // ---------------------------------------------------------------- writing, as a value

  function Header(tag: char, n: int): string { [tag] + " " + Print(n) }

  function Frame(tag: char, data: string): string { Header(tag, |data|) + "\n" + data }

  lemma HeaderReads(tag: char, n: nat, rest: string, size: nat)
    requires n <= FRAME_MAX && Plain([tag]) && size >= 16
    ensures var h := Header(tag, n);
      && ReadLine(h + "\n" + rest, size, "") == (Got(h), rest)
      && At(h, 0) == tag && At(h, 1) == ' ' && Atol(h[2..]) == n
  {
    var h, p := Header(tag, n), Print(n);
    ShortNumber(n);
    assert h == [tag] + " " + p;
    assert Plain(h) by { assert forall c :: c in h ==> c == tag || c == ' ' || c in p; }
    assert |h| == 2 + |p|;
    ReadLineIs(h, rest, size, "");
    assert "" + h == h;
    assert h[2..] == p + [];
    AtolPrint(n, []);
  }

  lemma ShortNumber(n: nat)
    requires n < 10000
    ensures |Print(n)| <= 4 && forall c :: c in Print(n) ==> IsDigit(c)
  {
    assert Power10(2) == 100;
    assert Power10(4) == 100 * Power10(2);
    PrintPlain(n, 4, 10000);
  }

  // ---------------------------------------------------------------- the channel

  datatype Kind = Tcp | Serial

  class Chan {
    const kind: Kind
    var incoming: string       // bytes still to arrive
    var cuts: seq<nat>         // how many bytes each receive or send moves, as the network has it
    var outgoing: string       // bytes written
    var room: nat              // bytes the peer will still take

    constructor (k: Kind, data: string, schedule: seq<nat>, peer: nat)
      ensures kind == k && incoming == data && outgoing == [] && room == peer
    {
      kind, incoming, cuts, outgoing, room := k, data, schedule, [], peer;
    }

    method NextCut(max: nat) returns (k: nat)
      requires max > 0
      modifies `cuts
      ensures 1 <= k <= max
    {
      k := max;
      if cuts != [] {
        if 1 <= cuts[0] <= max { k := cuts[0]; }
        cuts := cuts[1..];
      }
    }

    /** One receive: some bytes, at most `n`, or none at end of stream. */
    method Recv(n: nat) returns (got: string)
      requires n > 0
      modifies `incoming, `cuts
      ensures got + incoming == old(incoming) && |got| <= n
      ensures got == [] <==> old(incoming) == []
    {
      if incoming == [] { return []; }
      var k := NextCut(if |incoming| < n then |incoming| else n);
      got := incoming[..k];
      incoming := incoming[k..];
    }

    /** Exactly `n` bytes, however they are cut up, or failure when the stream is shorter. */
    method ReadN(n: nat) returns (ok: bool, buf: string)
      modifies `incoming, `cuts
      ensures ok <==> n <= |old(incoming)|
      ensures ok ==> buf == old(incoming)[..n] && incoming == old(incoming)[n..]
      ensures !ok ==> incoming == []
    {
      buf := [];
      while |buf| < n
        invariant |buf| <= n && buf + incoming == old(incoming)
        decreases n - |buf|
      {
        var got := Recv(n - |buf|);
        if got == [] { return false, buf; }
        assert buf + got + incoming == buf + (got + incoming);
        buf := buf + got;
      }
      return true, buf;
    }

    /** All of `data`, however the network takes it, or failure when the peer stops taking bytes. */
    method WriteAll(data: string) returns (ok: bool)
      modifies `outgoing, `cuts, `room
      ensures ok <==> |data| <= old(room)
      ensures ok ==> outgoing == old(outgoing) + data && room == old(room) - |data|
      ensures !ok ==> outgoing == old(outgoing) + data[..old(room)] && room == 0
    {
      var sent := 0;
      while sent < |data|
        invariant 0 <= sent <= |data| && sent + room == old(room)
        invariant outgoing == old(outgoing) + data[..sent]
      {
        if room == 0 { return false; }
        var k := NextCut(if |data| - sent < room then |data| - sent else room);
        outgoing := outgoing + data[sent..sent + k];
        assert data[..sent + k] == data[..sent] + data[sent..sent + k];
        sent, room := sent + k, room - k;
      }
      assert data[..sent] == data;
      return true;
    }

    /** Preferred payload size. */
    function Chunk(): (n: nat)
      ensures 1 <= n <= FRAME_MAX
    {
      if kind == Serial then SER_FRAME else 1024
    }

    /** One byte at a time, so that nothing after the line end is ever taken. */
    method GetLine(size: int) returns (r: Line)
      modifies `incoming, `cuts
      ensures (r, incoming) == ReadLine(old(incoming), size, "")
    {
      var buf := "";
      while true
        invariant ReadLine(incoming, size, buf) == ReadLine(old(incoming), size, "")
        decreases |incoming|
      {
        var ok, c := ReadN(1);
        if !ok { return Eio; }
        var ch := c[0];
        if ch == '\r' { continue; }
        if ch == '\n' { return Got(CStr(buf)); }
        if |buf| >= size - 1 { return TooLong; }
        buf := buf + [ch];
      }
    }

    method PutLine(line: string) returns (ok: bool)
      modifies `outgoing, `cuts, `room
      ensures ok <==> |line| + 1 <= old(room)
      ensures ok ==> outgoing == old(outgoing) + (line + "\n") && room == old(room) - |line| - 1
      ensures !ok ==> outgoing == old(outgoing) + (line + "\n")[..old(room)] && room == 0
    {
      ok := WriteAll(line);
      if !ok { return; }
      ok := WriteAll("\n");
    }

    /** A frame of 1 to 4096 bytes, or failure. */
    method PutFrame(tag: char, data: string) returns (ok: bool)
      modifies `outgoing, `cuts, `room
      ensures ok <==> 1 <= |data| <= FRAME_MAX && |Frame(tag, data)| <= old(room)
      ensures ok ==> outgoing == old(outgoing) + Frame(tag, data) && room == old(room) - |Frame(tag, data)|
      ensures room <= old(room) && (!ok && 1 <= |data| <= FRAME_MAX ==> room == 0)
    {
      if |data| < 1 || |data| > FRAME_MAX { return false; }
      ok := WriteAll(Header(tag, |data|) + "\n");
      if !ok { return; }
      ok := WriteAll(data);
    }
  }
}
