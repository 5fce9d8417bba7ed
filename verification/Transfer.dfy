/**
  PUT and GET: a file travels as "D <len>" frames ended by "D 0". The sender is the same on
  both sides; `DoPut` is the daemon's receiver and `XferGet` the client's.
*/
module Transfer {
  import opened Bytes
  import opened Decimal
  import opened Lineio
  import Util

  const HDR_MAX := 48
  const EOF_LINE := "D 0\n"

  // ---------------------------------------------------------------- what is sent

  /** The frames of `data` from position `i` on, in blocks of at most `chunk`, and the terminator. */
  function FileWire(data: string, i: nat, chunk: nat): string
    requires i <= |data| && 1 <= chunk
    decreases |data| - i
  {
    if i == |data| then EOF_LINE
    else
      var j := if i + chunk < |data| then i + chunk else |data|;
      Frame('D', data[i..j]) + FileWire(data, j, chunk)
  }

  /** The sending loop; it succeeds unless the peer has stopped taking bytes. */
  method SendData(ch: Chan, data: string) returns (ok: bool)
    modifies ch
    ensures ch.room <= old(ch.room) && (!ok ==> ch.room == 0)
    ensures ok ==> ch.outgoing == old(ch.outgoing) + FileWire(data, 0, ch.Chunk())
    ensures ch.incoming == old(ch.incoming)
  {
    var i := 0;
    ghost var done, todo := "", FileWire(data, 0, ch.Chunk());
    assert "" + todo == todo;
    while i < |data|
      invariant i <= |data| && ch.room <= old(ch.room) && ch.incoming == old(ch.incoming)
      invariant todo == FileWire(data, i, ch.Chunk())
      invariant FileWire(data, 0, ch.Chunk()) == done + todo
      invariant ch.outgoing == old(ch.outgoing) + done
    {
      var j := if i + ch.Chunk() < |data| then i + ch.Chunk() else |data|;
      ghost var w := Frame('D', data[i..j]);
      ok := ch.PutFrame('D', data[i..j]);
      if !ok { return; }
      todo := FileWire(data, j, ch.Chunk());
      Assoc(done, w, todo);
      Assoc(old(ch.outgoing), done, w);
      done := done + w;
      i := j;
    }
    ok := ch.PutLine("D 0");
    assert "D 0" + "\n" == EOF_LINE;
    Assoc(old(ch.outgoing), done, todo);
  }

  // ---------------------------------------------------------------- what is received

  /** A data-frame header line: its length, or None when it is anything else. */
  function DataLength(line: string): Option<int> {
    if At(line, 0) == 'D' && At(line, 1) == ' ' then Some(Atol(line[2..])) else None
  }

  /** A violation carries the line the daemon answers it with, if any. */
  datatype Next = Block(text: string, rest: string) | Last(rest: string) | Bad(rest: string, error: string)

  /** One frame read with a header buffer of `size`: a block, the terminator, or a violation. */
  function NextBlock(s: string, size: int): (b: Next)
    ensures b.Block? ==> |b.text| + |b.rest| < |s| && 1 <= |b.text|
  {
    var (line, rest) := ReadLine(s, size, "");
    if !line.Got? then Bad(rest, "")
    else if DataLength(line.text).None? then Bad(rest, "ERR 400 expected data frame") else
    var n := DataLength(line.text).value;
    if n == 0 then Last(rest)
    else if n < 0 || n > FRAME_MAX then Bad(rest, "ERR 400 bad frame length")
    else if n > |rest| then Bad("", "")
    else Block(rest[..n], rest[n..])
  }

  /** How a transfer ends: what was stored by then, and the bytes after it. */
  datatype Received =
    | Complete(content: string, rest: string)
    | TooLarge(content: string, rest: string)
    | DiskFull(content: string, rest: string)
    | Broken(content: string, rest: string, error: string)

  /** Everything after `acc`, under an upload cap (0: none) and with `disk` bytes of space. */
  function Receive(s: string, size: int, cap: nat, disk: nat, acc: string): Received
    decreases |s|
  {
    match NextBlock(s, size)
    case Bad(rest, error) => Broken(acc, rest, error)
    case Last(rest) => Complete(acc, rest)
    case Block(text, rest) =>
      if cap > 0 && |acc| + |text| > cap then TooLarge(acc, rest)
      else if |acc| + |text| > disk then DiskFull(acc, rest)
      else Receive(rest, size, cap, disk, acc + text)
  }

  lemma {:induction false} ReceiveShrinks(s: string, size: int, cap: nat, disk: nat, acc: string)
    ensures |Receive(s, size, cap, disk, acc).rest| <= |s|
    decreases |s|
  {
    var b := NextBlock(s, size);
    if b.Block? { ReceiveShrinks(b.rest, size, cap, disk, acc + b.text); }
  }

  lemma BlockReads(text: string, rest: string, size: nat)
    requires 1 <= |text| <= FRAME_MAX && size >= 16
    ensures NextBlock(Frame('D', text) + rest, size) == Block(text, rest)
  {
    HeaderReads('D', |text|, text + rest, size);
    assert Frame('D', text) + rest == Header('D', |text|) + "\n" + (text + rest);
    assert (text + rest)[..|text|] == text && (text + rest)[|text|..] == rest;
  }

  /** The frames as the protocol has them. */
  lemma FramesAre(data: string, chunk: nat)
    requires 1 <= chunk
    ensures FileWire("", 0, chunk) == "D 0\n"
    ensures 1 <= |data| <= chunk ==> FileWire(data, 0, chunk) == "D " + Print(|data|) + "\n" + data + "D 0\n"
    ensures |data| > chunk ==> FileWire(data, 0, chunk) == "D " + Print(chunk) + "\n" + data[..chunk] + FileWire(data, chunk, chunk)
  {
    assert "D" + " " == "D " && data[0..] == data;
    if |data| <= chunk { assert data[0..|data|] == data; }
  }

  /** A line that is no data header, or gives no length a frame can have, ends the transfer with its own error; so does, silently, a frame cut short. */
  lemma BadHeader(line: string, rest: string, size: nat)
    requires Plain(line) && |line| < size
    ensures var b := NextBlock(line + "\n" + rest, size);
      if !("D " <= line) then b == Bad(rest, "ERR 400 expected data frame")
      else if Atol(line[2..]) < 0 || Atol(line[2..]) > 4096 then b == Bad(rest, "ERR 400 bad frame length")
      else if Atol(line[2..]) == 0 then b == Last(rest)
      else if Atol(line[2..]) > |rest| then b == Bad("", "")
      else b == Block(rest[..Atol(line[2..])], rest[Atol(line[2..])..])
  {
    ReadLineIs(line, rest, size, "");
    assert "" + line == line;
  }

  lemma EndReads(rest: string, size: nat)
    requires size >= 16
    ensures NextBlock(EOF_LINE + rest, size) == Last(rest)
  {
    HeaderReads('D', 0, rest, size);
    assert Header('D', 0) + "\n" == EOF_LINE;
  }

  lemma {:induction false} EndsWithEof(data: string, i: nat, chunk: nat)
    requires 1 <= chunk && i <= |data|
    ensures |FileWire(data, i, chunk)| >= |EOF_LINE|
    decreases |data| - i
  {
    if i < |data| { EndsWithEof(data, if i + chunk < |data| then i + chunk else |data|, chunk); }
  }

  lemma {:induction false} WireHoldsData(data: string, i: nat, chunk: nat)
    requires 1 <= chunk && i <= |data|
    ensures |FileWire(data, i, chunk)| >= |data| - i
    decreases |data| - i
  {
    if i < |data| { WireHoldsData(data, if i + chunk < |data| then i + chunk else |data|, chunk); }
  }

  /**
    The file arrives unchanged and the receiver stops at the byte after the terminator,
    exactly when the cap is 0 or holds the whole file and there is the space for it;
    otherwise the upload is refused, for the one reason or the other, with at least the
    terminator still unread.
  */
  lemma {:induction false} TransferIsIdentity(data: string, i: nat, chunk: nat, size: nat, cap: nat, disk: nat, rest: string)
    requires 1 <= chunk <= FRAME_MAX && i <= |data| && i <= disk && size >= 16 && (cap > 0 ==> i <= cap)
    ensures var r := Receive(FileWire(data, i, chunk) + rest, size, cap, disk, data[..i]);
      if (cap == 0 || |data| <= cap) && |data| <= disk then r == Complete(data, rest)
      else ((r.TooLarge? && 0 < cap < |data|) || (r.DiskFull? && disk < |data|)) && |r.rest| >= |EOF_LINE| + |rest|
    decreases |data| - i
  {
    if i == |data| {
      EndReads(rest, size);
      assert data[..i] == data;
    } else {
      var j := if i + chunk < |data| then i + chunk else |data|;
      var tail := FileWire(data, j, chunk);
      Assoc(Frame('D', data[i..j]), tail, rest);
      BlockTaken(data, i, j, tail + rest, size, cap, disk);
      EndsWithEof(data, j, chunk);
      if !(cap > 0 && j > cap) && j <= disk {
        TransferIsIdentity(data, j, chunk, size, cap, disk, rest);
      }
    }
  }

  /** What one block does to an upload. */
  lemma BlockTaken(data: string, i: nat, j: nat, rest: string, size: nat, cap: nat, disk: nat)
    requires i < j <= |data| && j - i <= FRAME_MAX && size >= 16
    ensures Receive(Frame('D', data[i..j]) + rest, size, cap, disk, data[..i]) ==
      if 0 < cap < j then TooLarge(data[..i], rest) else if disk < j then DiskFull(data[..i], rest) else Receive(rest, size, cap, disk, data[..j])
  {
    BlockReads(data[i..j], rest, size);
    assert data[..i] + data[i..j] == data[..j];
  }

  // ---------------------------------------------------------------- the daemon

  /** Read one block from the channel. */
  method GetBlock(ch: Chan, size: int) returns (b: Next)
    modifies ch
    ensures b == NextBlock(old(ch.incoming), size) && ch.incoming == b.rest
    ensures ch.outgoing == old(ch.outgoing) && ch.room == old(ch.room)
  {
    var r := ch.GetLine(size);
    if !r.Got? { return Bad(ch.incoming, ""); }
    if DataLength(r.text).None? { return Bad(ch.incoming, "ERR 400 expected data frame"); }
    var n := DataLength(r.text).value;
    if n == 0 { return Last(ch.incoming); }
    if n < 0 || n > FRAME_MAX { return Bad(ch.incoming, "ERR 400 bad frame length"); }
    var ok, buf := ch.ReadN(n);
    if !ok { return Bad(ch.incoming, ""); }
    return Block(buf, ch.incoming);
  }

  /** The receiving loop into a file. */
  method GetBlocks(ch: Chan, size: int, cap: nat, disk: nat) returns (r: Received)
    modifies ch
    ensures r == Receive(old(ch.incoming), size, cap, disk, "") && ch.incoming == r.rest
    ensures ch.outgoing == old(ch.outgoing) && ch.room == old(ch.room)
  {
    var content := "";
    while true
      invariant Receive(ch.incoming, size, cap, disk, content) == Receive(old(ch.incoming), size, cap, disk, "")
      invariant ch.outgoing == old(ch.outgoing) && ch.room == old(ch.room)
      decreases |ch.incoming|
    {
      var b := GetBlock(ch, size);
      if b.Bad? { return Broken(content, b.rest, b.error); }
      if b.Last? { return Complete(content, b.rest); }
      if cap > 0 && |content| + |b.text| > cap { return TooLarge(content, b.rest); }
      if |content| + |b.text| > disk { return DiskFull(content, b.rest); }
      content := content + b.text;
    }
  }

  /** The daemon's last word on an upload: the reply line, whether the session goes on, and what is at the path. */
  function PutVerdict(r: Received): (string, bool, Option<string>) {
    match r
    case Complete(content, _) => ("OK " + Print(|content|), true, Some(content))
    case TooLarge(_, _) => ("ERR 413 too large", true, None)
    case DiskFull(_, _) => ("ERR 500 write failed", true, None)
    case Broken(_, _, error) => (error, false, None)
  }

  /**
    PUT. A complete upload leaves exactly the bytes received at the path and reports their
    number; anything else leaves no file behind.
  */
  method DoPut(ch: Chan, path: string, creatable: bool, cap: nat, disk: nat) returns (goesOn: bool, file: Option<string>)
    modifies ch
    ensures ch.room <= old(ch.room) && |ch.incoming| <= |old(ch.incoming)|
    ensures path == "" || !creatable ==> file == None && ch.incoming == old(ch.incoming)
    ensures (path == "" || !creatable) && ch.room > 0 ==>
      goesOn && ch.outgoing == old(ch.outgoing) + (if path == "" then "ERR 400 missing path" else "ERR 404 cannot create") + "\n"
    ensures path != "" && creatable && ch.room > 0 ==>
      var r := Receive(old(ch.incoming), HDR_MAX, cap, disk, "");
      var (reply, on, stored) := PutVerdict(r);
      && ch.incoming == r.rest && file == stored && goesOn == on
      && ch.outgoing == old(ch.outgoing) + "OK\n" + (if reply == "" then "" else reply + "\n")
    ensures path != "" && creatable && goesOn ==>
      var r := Receive(old(ch.incoming), HDR_MAX, cap, disk, "");
      ch.incoming == r.rest && PutVerdict(r).1 && file == PutVerdict(r).2
    ensures path != "" && creatable && !goesOn ==>
      file == Some("") || file == PutVerdict(Receive(old(ch.incoming), HDR_MAX, cap, disk, "")).2
  {
    if path == "" {
      goesOn := ch.PutLine("ERR 400 missing path");
      return goesOn, None;
    }
    if !creatable {
      goesOn := ch.PutLine("ERR 404 cannot create");
      return goesOn, None;
    }
    var ok := ch.PutLine("OK");
    if !ok { return false, Some(""); }
    assert "OK" + "\n" == "OK\n";
    ReceiveShrinks(ch.incoming, HDR_MAX, cap, disk, "");
    var r := GetBlocks(ch, HDR_MAX, cap, disk);
    var (reply, on, stored) := PutVerdict(r);
    if !on {
      if reply != "" {
        var _ := ch.PutLine(reply);
      }
      return false, None;
    }
    goesOn := ch.PutLine(reply);
    file := stored;
  }

  /** GET: the file as frames, or an error line. */
  method DoGet(ch: Chan, path: string, file: Option<string>) returns (goesOn: bool)
    modifies ch
    ensures ch.room <= old(ch.room)
    ensures (path == "" || file.None?) && ch.room > 0 ==>
      goesOn && ch.outgoing == old(ch.outgoing) + (if path == "" then "ERR 400 missing path" else "ERR 404 no such file") + "\n"
    ensures path != "" && file.Some? && ch.room > 0 ==>
      goesOn && ch.outgoing == old(ch.outgoing) + "OK\n" + FileWire(file.value, 0, ch.Chunk())
    ensures ch.incoming == old(ch.incoming)
  {
    if path == "" {
      goesOn := ch.PutLine("ERR 400 missing path");
      return;
    }
    if file.None? {
      goesOn := ch.PutLine("ERR 404 no such file");
      return;
    }
    goesOn := ch.PutLine("OK");
    if !goesOn { return; }
    assert "OK" + "\n" == "OK\n";
    goesOn := SendData(ch, file.value);
  }

  // ---------------------------------------------------------------- the client

  /** A request line, cut to what the line buffer holds. */
  function Request(verb: string, path: string): string { Util.Fit(verb + " " + path, LINE_MAX) }

  /** Send a request and read the reply line. */
  method RcCmd(ch: Chan, line: string) returns (reply: Line)
    modifies ch
    ensures ch.room > 0 ==> ch.outgoing == old(ch.outgoing) + line + "\n" && (reply, ch.incoming) == ReadLine(old(ch.incoming), LINE_MAX, "")
    ensures reply.Got? ==> ch.outgoing == old(ch.outgoing) + line + "\n" && (reply, ch.incoming) == ReadLine(old(ch.incoming), LINE_MAX, "")
    ensures ch.room <= old(ch.room)
  {
    var ok := ch.PutLine(line);
    if !ok { return Eio; }
    Assoc(ch.outgoing[..|old(ch.outgoing)|], line, "\n");
    reply := ch.GetLine(LINE_MAX);
  }

  /** Take a file off the session although there is nowhere to put it. */
  method Drain(ch: Chan)
    modifies ch
    ensures ch.incoming == Receive(old(ch.incoming), LINE_MAX, 0, |old(ch.incoming)|, "").rest
    ensures ch.outgoing == old(ch.outgoing) && ch.room == old(ch.room)
  {
    ghost var s, content := ch.incoming, "";
    while true
      invariant Receive(ch.incoming, LINE_MAX, 0, |s|, content) == Receive(s, LINE_MAX, 0, |s|, "")
      invariant |content| + |ch.incoming| <= |s|
      invariant ch.outgoing == old(ch.outgoing) && ch.room == old(ch.room)
      decreases |ch.incoming|
    {
      var b := GetBlock(ch, LINE_MAX);
      if !b.Block? { return; }
      content := content + b.text;
    }
  }

  /**
    GET on the client. Success means the whole file; a transfer that breaks off, or fills
    the disk, leaves the blocks stored by then at the local path. When no file can be
    created the transfer is still taken off the session.
  */
  method XferGet(ch: Chan, rpath: string, creatable: bool, disk: nat) returns (ok: bool, file: Option<string>)
    modifies ch
    ensures ch.room > 0 ==>
      var (reply, rest) := ReadLine(old(ch.incoming), LINE_MAX, "");
      var r := Receive(rest, LINE_MAX, 0, if creatable then disk else |rest|, "");
      && ch.outgoing == old(ch.outgoing) + Request("GET", rpath) + "\n"
      && ch.incoming == (if reply == Got("OK") then r.rest else rest)
      && file == (if reply == Got("OK") && creatable then Some(r.content) else None)
      && ok == (reply == Got("OK") && creatable && r.Complete?)
  {
    var reply := RcCmd(ch, Request("GET", rpath));
    if reply != Got("OK") { return false, None; }
    if !creatable {
      Drain(ch);
      return false, None;
    }
    var r := GetBlocks(ch, LINE_MAX, 0, disk);
    return r.Complete?, Some(r.content);
  }

  /** What is stored is always the head of the file sent, whatever ends the transfer. */
  lemma {:induction false} StoredIsHead(data: string, i: nat, chunk: nat, size: nat, cap: nat, disk: nat, cut: nat)
    requires 1 <= chunk <= FRAME_MAX && i <= |data| && size >= 16 && cut <= |FileWire(data, i, chunk)|
    ensures Receive(FileWire(data, i, chunk)[..cut], size, cap, disk, data[..i]).content <= data
    decreases |data| - i
  {
    var wire := FileWire(data, i, chunk);
    if i == |data| {
      assert data[..i] == data;
      CutEnd(cut, size);
    } else {
      var j := if i + chunk < |data| then i + chunk else |data|;
      var frame, tail := Frame('D', data[i..j]), FileWire(data, j, chunk);
      if cut >= |frame| {
        StoredIsHead(data, j, chunk, size, cap, disk, cut - |frame|);
        assert wire[..cut] == frame + tail[..cut - |frame|];
        BlockStored(data, i, j, tail[..cut - |frame|], size, cap, disk);
      } else {
        assert wire[..cut] == frame[..cut];
        CutFrame(data[i..j], cut, size);
      }
    }
  }

  lemma BlockStored(data: string, i: nat, j: nat, rest: string, size: nat, cap: nat, disk: nat)
    requires i < j <= |data| && j - i <= FRAME_MAX && size >= 16
    requires Receive(rest, size, cap, disk, data[..j]).content <= data
    ensures Receive(Frame('D', data[i..j]) + rest, size, cap, disk, data[..i]).content <= data
  {
    BlockReads(data[i..j], rest, size);
    assert data[..i] + data[i..j] == data[..j];
  }

  /** A stream that stops inside a frame gives no block and no end. */
  lemma CutFrame(text: string, cut: nat, size: nat)
    requires 1 <= |text| <= FRAME_MAX && size >= 16 && cut < |Frame('D', text)|
    ensures NextBlock(Frame('D', text)[..cut], size).Bad?
  {
    var h := Header('D', |text|);
    var s := Frame('D', text)[..cut];
    HeaderReads('D', |text|, text, size);
    HeaderIsLine('D', |text|);
    if cut <= |h| {
      assert s == h[..cut];
      NoLine(s, size, "");
    } else {
      var body := text[..cut - |h| - 1];
      assert s == h + "\n" + body;
      HeaderReads('D', |text|, body, size);
    }
  }

  lemma CutEnd(cut: nat, size: nat)
    requires size >= 16 && cut <= |EOF_LINE|
    ensures !NextBlock(EOF_LINE[..cut], size).Block?
  {
    if cut == |EOF_LINE| {
      assert EOF_LINE[..cut] == EOF_LINE + "";
      EndReads("", size);
    } else {
      assert '\n' !in EOF_LINE[..cut];
      NoLine(EOF_LINE[..cut], size, "");
    }
  }

  lemma HeaderIsLine(tag: char, n: nat)
    requires n <= FRAME_MAX && Plain([tag])
    ensures Plain(Header(tag, n))
  {
    ShortNumber(n);
    assert forall c :: c in Header(tag, n) ==> c == tag || c == ' ' || c in Print(n);
  }

  /** Without a line feed there is no line. */
  lemma {:induction false} NoLine(s: string, size: int, acc: string)
    requires '\n' !in s
    ensures !ReadLine(s, size, acc).0.Got?
    decreases |s|
  {
    if s != "" {
      assert s[0] in s;
      NoLine(s[1..], size, if s[0] == '\r' then acc else acc + [s[0]]);
    }
  }

  /** PUT on the client: success exactly when the daemon says OK twice. */
  method XferPut(ch: Chan, rpath: string, data: string) returns (ok: bool)
    modifies ch
    ensures ch.room > 0 ==>
      var (first, rest) := ReadLine(old(ch.incoming), LINE_MAX, "");
      var (second, rest') := ReadLine(rest, LINE_MAX, "");
      && ch.outgoing == old(ch.outgoing) + Request("PUT", rpath) + "\n" + (if first == Got("OK") then FileWire(data, 0, ch.Chunk()) else "")
      && ch.incoming == (if first == Got("OK") then rest' else rest)
      && ok == (first == Got("OK") && second.Got? && "OK" <= second.text)
  {
    var reply := RcCmd(ch, Request("PUT", rpath));
    if reply != Got("OK") { return false; }
    ok := SendData(ch, data);
    if !ok { return; }
    reply := ch.GetLine(LINE_MAX);
    return reply.Got? && "OK" <= reply.text;
  }

  /**
    A whole upload: for every file, block size, cap and space, what the client sends is
    stored byte for byte and its exact length reported, exactly when the cap and the space
    allow it, and the daemon is then at the first byte after the transfer; a refused upload
    leaves no file and goes on with the session although frames of the transfer are still
    to be read.
  */
  lemma UploadStoresFile(data: string, chunk: nat, cap: nat, disk: nat, rest: string)
    requires 1 <= chunk <= FRAME_MAX
    ensures var r := Receive(FileWire(data, 0, chunk) + rest, HDR_MAX, cap, disk, "");
      if (cap == 0 || |data| <= cap) && |data| <= disk then PutVerdict(r) == ("OK " + Print(|data|), true, Some(data)) && r.rest == rest
      else |r.rest| > |rest| && (if 0 < cap < |data| && |data| <= disk then PutVerdict(r) == ("ERR 413 too large", true, None)
           else if cap == 0 || |data| <= cap then PutVerdict(r) == ("ERR 500 write failed", true, None)
           else PutVerdict(r) in {("ERR 413 too large", true, None), ("ERR 500 write failed", true, None)})
  {
    TransferIsIdentity(data, 0, chunk, HDR_MAX, cap, disk, rest);
    assert data[..0] == "";
  }

  /** The client reports success for exactly the uploads the daemon keeps. */
  lemma ClientSeesVerdict(r: Received, rest: string)
    requires !r.Broken? && (r.Complete? ==> |r.content| < 0x8000_0000_0000_0000)
    ensures var (reply, _, stored) := PutVerdict(r); var sent := "OK\n" + (reply + "\n" + rest);
      && ReadLine(sent, LINE_MAX, "") == (Got("OK"), reply + "\n" + rest)
      && ReadLine(reply + "\n" + rest, LINE_MAX, "") == (Got(reply), rest)
      && ("OK" <= reply <==> stored.Some?)
  {
    var reply := PutVerdict(r).0;
    VerdictIsLine(r);
    OkReads(reply + "\n" + rest);
    ReadLineIs(reply, rest, LINE_MAX, "");
    assert "" + reply == reply;
  }

  lemma VerdictIsLine(r: Received)
    requires !r.Broken? && (r.Complete? ==> |r.content| < 0x8000_0000_0000_0000)
    ensures Plain(PutVerdict(r).0) && |PutVerdict(r).0| < LINE_MAX
  {
    if r.Complete? {
      var n := |r.content|;
      ShortLength(n);
      assert forall c :: c in "OK " + Print(n) ==> c in "OK " || c in Print(n);
    }
  }

  lemma OkReads(rest: string)
    ensures ReadLine("OK\n" + rest, LINE_MAX, "") == (Got("OK"), rest)
  {
    assert Plain("OK");
    ReadLineIs("OK", rest, LINE_MAX, "");
    assert "OK" + "\n" + rest == "OK\n" + rest && "" + "OK" == "OK";
  }

  /** A file length is a C long: at most twenty digits. */
  lemma ShortLength(n: nat)
    requires n < 0x8000_0000_0000_0000
    ensures |Print(n)| <= 20 && forall c :: c in Print(n) ==> IsDigit(c)
  {
    assert Power10(4) == 10000;
    assert Power10(8) == 10000 * Power10(4);
    assert Power10(12) == 10000 * Power10(8);
    assert Power10(16) == 10000 * Power10(12);
    assert Power10(20) == 10000 * Power10(16);
    PrintPlain(n, 20, Power10(20));
  }

  /** A whole download gives the daemon's file, and the client stops where the transfer does. */
  lemma DownloadIsFile(data: string, chunk: nat, disk: nat, rest: string)
    requires 1 <= chunk <= FRAME_MAX && |data| <= disk
    ensures var sent := "OK\n" + (FileWire(data, 0, chunk) + rest);
      && ReadLine(sent, LINE_MAX, "") == (Got("OK"), FileWire(data, 0, chunk) + rest)
      && Receive(FileWire(data, 0, chunk) + rest, LINE_MAX, 0, disk, "") == Complete(data, rest)
  {
    OkReads(FileWire(data, 0, chunk) + rest);
    TransferIsIdentity(data, 0, chunk, LINE_MAX, 0, disk, rest);
    assert data[..0] == "";
  }
}
