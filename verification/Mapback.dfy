/**
  The client's output filter: payload of one stream, arriving in frames of any size, is
  gathered into lines, and each line goes out with its remote paths turned into local
  ones. A line that outgrows the buffer goes out as it is.
*/
module Mapback {
  import opened Bytes
  import opened Pathmap
  import opened Util

  const MB_LINE: nat := 2048

  /** The buffer as the C string the mapper sees: nothing after a NUL. */
  function Seen(s: string): (t: string)
    ensures t <= s && NulFree(t) && (NulFree(s) ==> t == s) && (|t| < |s| ==> s[|t|] == NUL)
  {
    if s == "" || s[0] == NUL then "" else [s[0]] + Seen(s[1..])
  }

  function Filtered(es: seq<Entry>, line: string): string { Fit(Back(es, Seen(line)), OUT_LIMIT + 1) }

  /** With no maps a line is left alone, which is more than the mapper could write. */
  function LineOut(es: seq<Entry>, line: string): string { if es == [] then Seen(line) else Filtered(es, line) }

  /** What goes out for `s` after `acc` has been gathered, and what is gathered then. */
  function Feed(es: seq<Entry>, acc: string, s: string): (string, string)
    decreases |s|
  {
    if s == "" then ("", acc)
    else
      var (now, acc1) :=
        if s[0] == '\n' then (LineOut(es, acc) + "\n", "")
        else if |acc| >= MB_LINE - 1 then (acc, [s[0]])
        else ("", acc + [s[0]]);
      var (later, acc2) := Feed(es, acc1, s[1..]);
      (now + later, acc2)
  }

  /** How the payload is cut into frames makes no difference. */
  lemma {:induction false} FeedAppend(es: seq<Entry>, acc: string, a: string, b: string)
    ensures var (x, acc1) := Feed(es, acc, a); var (y, acc2) := Feed(es, acc1, b);
      Feed(es, acc, a + b) == (x + y, acc2)
    decreases |a|
  {
    if a == "" {
      assert a + b == b && "" + Feed(es, acc, b).0 == Feed(es, acc, b).0;
    } else {
      assert (a + b)[1..] == a[1..] + b;
      var now, acc1 := FeedOne(es, acc, a);
      var _, _ := FeedOne(es, acc, a + b);
      FeedAppend(es, acc1, a[1..], b);
      var x := Feed(es, acc1, a[1..]);
      Assoc(now, x.0, Feed(es, x.1, b).0);
    }
  }

  lemma FeedOne(es: seq<Entry>, acc: string, s: string) returns (now: string, acc1: string)
    requires s != ""
    ensures now == if s[0] == '\n' then LineOut(es, acc) + "\n" else if |acc| >= MB_LINE - 1 then acc else ""
    ensures acc1 == if s[0] == '\n' then "" else if |acc| >= MB_LINE - 1 then [s[0]] else acc + [s[0]]
    ensures Feed(es, acc, s) == (now + Feed(es, acc1, s[1..]).0, Feed(es, acc1, s[1..]).1)
  {
    now := if s[0] == '\n' then LineOut(es, acc) + "\n" else if |acc| >= MB_LINE - 1 then acc else "";
    acc1 := if s[0] == '\n' then "" else if |acc| >= MB_LINE - 1 then [s[0]] else acc + [s[0]];
  }

  lemma {:induction false} FeedPartial(es: seq<Entry>, acc: string, line: string)
    requires '\n' !in line && |acc| + |line| < MB_LINE
    ensures Feed(es, acc, line) == ("", acc + line)
    decreases |line|
  {
    if line == "" {
      assert acc + line == acc;
    } else {
      var now, acc1 := FeedOne(es, acc, line);
      assert line[0] in line;
      FeedPartial(es, acc1, line[1..]);
      Assoc(acc, [line[0]], line[1..]);
      assert [line[0]] + line[1..] == line;
      assert now == "" && now + "" == "";
    }
  }

  /** Text without a line feed is kept: what has gone out of it, raw, and what is gathered are the text. */
  lemma {:induction false} NothingLost(es: seq<Entry>, acc: string, s: string)
    requires '\n' !in s && |acc| < MB_LINE
    ensures var (out, acc') := Feed(es, acc, s); out + acc' == acc + s && |acc'| < MB_LINE && (out == "" <==> |acc| + |s| < MB_LINE)
    decreases |s|
  {
    if s == "" {
      assert "" + acc == acc + s;
    } else {
      var now, acc1 := FeedOne(es, acc, s);
      assert s[0] in s;
      NothingLost(es, acc1, s[1..]);
      var r := Feed(es, acc1, s[1..]);
      assert now + acc1 == acc + [s[0]];
      Kept(now, acc1, r.0, r.1, acc, s);
    }
  }

  lemma Kept(now: string, acc1: string, later: string, acc2: string, acc: string, s: string)
    requires s != "" && now + acc1 == acc + [s[0]] && later + acc2 == acc1 + s[1..]
    ensures (now + later) + acc2 == acc + s
  {
    Assoc(now, later, acc2);
    Assoc(now, acc1, s[1..]);
    Assoc(acc, [s[0]], s[1..]);
    assert [s[0]] + s[1..] == s;
  }

  /** A line of any length: the part that outgrew the buffer goes out as it is, and only the rest is mapped. */
  lemma LongLine(es: seq<Entry>, line: string) returns (raw: string, rest: string)
    requires '\n' !in line
    ensures line == raw + rest && |rest| < MB_LINE && (raw == "" <==> |line| < MB_LINE)
    ensures Feed(es, "", line + "\n") == (raw + (LineOut(es, rest) + "\n"), "")
  {
    NothingLost(es, "", line);
    raw, rest := Feed(es, "", line).0, Feed(es, "", line).1;
    assert "" + line == line;
    FeedAppend(es, "", line, "\n");
    var now, acc1 := FeedOne(es, rest, "\n");
    assert "\n"[1..] == "" && now + "" == now;
  }

  function Joined(lines: seq<string>): string {
    if lines == [] then "" else lines[0] + "\n" + Joined(lines[1..])
  }

  function FilteredLines(es: seq<Entry>, lines: seq<string>): string {
    if lines == [] then "" else LineOut(es, lines[0]) + "\n" + FilteredLines(es, lines[1..])
  }

  /** A line goes out as the mapper turns it, up to 2046 characters of it; with no maps, as it is. */
  lemma LineIsMapped(es: seq<Entry>, line: string)
    requires NulFree(line)
    ensures LineOut(es, line) <= Back(es, line)
    ensures es == [] || |Back(es, line)| <= 2046 ==> LineOut(es, line) == Back(es, line)
    ensures es != [] && |Back(es, line)| > 2046 ==> |LineOut(es, line)| == 2046
    ensures es == [] ==> LineOut(es, line) == line
  {
    if es == [] { NoMapsNoChange(line); }
  }

  /** Text goes out line by line, each line filtered on its own. */
  lemma {:induction false} LinesAreFiltered(es: seq<Entry>, lines: seq<string>)
    requires forall l :: l in lines ==> '\n' !in l && |l| < MB_LINE
    ensures Feed(es, "", Joined(lines)) == (FilteredLines(es, lines), "")
  {
    if lines != [] {
      var l, rest := lines[0], Joined(lines[1..]);
      assert l in lines;
      Assoc(l, "\n", rest);
      FeedAppend(es, "", l, "\n" + rest);
      FeedPartial(es, "", l);
      assert "" + l == l;
      var now, acc1 := FeedOne(es, l, "\n" + rest);
      assert ("\n" + rest)[1..] == rest;
      LinesAreFiltered(es, lines[1..]);
      assert "" + FilteredLines(es, lines) == FilteredLines(es, lines);
    }
  }

  class Filter {
    const maps: seq<Option<string>>
    const acc: array<char>
    var accn: nat
    var written: string          // to the client's own stream

    ghost predicate Valid()
      reads this, acc
    {
      acc.Length == MB_LINE && accn < MB_LINE && forall e :: e in Entries(maps) ==> Clean(e)
    }

    ghost function Gathered(): string
      requires Valid()
      reads this, acc
    {
      acc[..accn]
    }

    constructor (ms: seq<Option<string>>)
      requires forall e :: e in Entries(ms) ==> Clean(e)
      ensures Valid() && maps == ms && Gathered() == "" && written == "" && fresh(acc)
    {
      maps, accn, written := ms, 0, "";
      acc := new char[MB_LINE];
    }

    /** Send the gathered line through the mapper. */
    method EmitLine(newline: bool)
      requires Valid()
      modifies acc, `written
      ensures Valid() && written == old(written) + LineOut(Entries(maps), old(Gathered())) + (if newline then "\n" else "")
    {
      ghost var s := Seen(acc[..accn]);
      assert forall i :: 0 <= i < accn ==> acc[i] == acc[..accn][i];
      acc[accn] := NUL;
      assert acc[..|s|] == s;
      var any := PmBackLine(maps, acc, s);
      ghost var out := LineOut(Entries(maps), old(Gathered()));
      if !any { NoMapsNoChange(s); }
      var n := StrLen(acc, out);
      written := written + acc[..n];
      if newline { written := written + "\n"; } else { assert written + "" == written; }
    }

    /** One frame's payload. */
    method MbFeed(buf: string)
      requires Valid()
      modifies this, acc
      ensures Valid()
      ensures var (out, left) := Feed(Entries(maps), old(Gathered()), buf);
        written == old(written) + out && Gathered() == left
    {
      ghost var es, done := Entries(maps), "";
      assert buf[0..] == buf && done + Feed(es, Gathered(), buf).0 == Feed(es, Gathered(), buf).0;
      assert written + done == written;
      for j := 0 to |buf|
        invariant Valid() && written == old(written) + done
        invariant var (later, left) := Feed(es, Gathered(), buf[j..]);
          Feed(es, old(Gathered()), buf) == (done + later, left)
      {
        ghost var now, acc1 := FeedOne(es, Gathered(), buf[j..]);
        assert buf[j..][1..] == buf[j + 1..];
        Assoc(done, now, Feed(es, acc1, buf[j + 1..]).0);
        Assoc(old(written), done, now);
        FeedChar(buf[j]);
        done := done + now;
      }
      assert done + "" == done;
    }

    method FeedChar(c: char)
      requires Valid()
      modifies this, acc
      ensures Valid()
      ensures written == old(written) + (if c == '\n' then LineOut(Entries(maps), old(Gathered())) + "\n" else if |old(Gathered())| >= MB_LINE - 1 then old(Gathered()) else "")
      ensures Gathered() == if c == '\n' then "" else if |old(Gathered())| >= MB_LINE - 1 then [c] else old(Gathered()) + [c]
    {
      if c == '\n' {
        EmitLine(true);
        accn := 0;
      } else if accn >= MB_LINE - 1 {
        written := written + acc[..accn];
        accn := 0;
        acc[accn] := c;
        accn := 1;
      } else {
        acc[accn] := c;
        accn := accn + 1;
      }
    }

    /** End of stream: a last line without its newline still goes out. */
    method MbFlush()
      requires Valid()
      modifies this, acc
      ensures Valid() && Gathered() == ""
      ensures written == old(written) + if old(Gathered()) == "" then "" else LineOut(Entries(maps), old(Gathered()))
    {
      if accn > 0 {
        EmitLine(false);
      }
      accn := 0;
    }
  }

  /** A whole stream in any frames: the output depends on the text only. */
  method FilterStream(maps: seq<Option<string>>, frames: seq<string>) returns (out: string)
    requires forall e :: e in Entries(maps) ==> Clean(e)
    ensures var (lines, last) := Feed(Entries(maps), "", Flatten(frames));
      out == lines + if last == "" then "" else LineOut(Entries(maps), last)
  {
    var f := new Filter(maps);
    ghost var es := Entries(maps);
    for i := 0 to |frames|
      invariant f.Valid() && f.maps == maps && fresh(f) && fresh(f.acc)
      invariant (f.written, f.Gathered()) == Feed(es, "", Flatten(frames[..i]))
    {
      assert frames[..i + 1] == frames[..i] + [frames[i]];
      FlattenSnoc(frames[..i], frames[i]);
      FeedAppend(es, "", Flatten(frames[..i]), frames[i]);
      f.MbFeed(frames[i]);
    }
    assert frames[..|frames|] == frames;
    f.MbFlush();
    return f.written;
  }
}
