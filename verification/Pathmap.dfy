/**
  The client's path maps. Forward, the current directory is carried to the remote machine
  by the map with the longest local prefix; backward, remote paths in the output lines are
  turned into local ones. A map is written `local|remote[|sep]`; the values of the (at
  most eight) map keys are given, None where a key is absent.
*/
module Pathmap {
  import opened Bytes
  import opened Util

  const OUT_LIMIT: nat := 2046     // characters the back-mapper may write before its NUL

  datatype Entry = Entry(local: string, remote: string, sep: char)

  function Find(s: string, c: char): (n: nat)
    ensures n <= |s| && c !in s[..n] && (n < |s| ==> s[n] == c)
  {
    if s == "" || s[0] == c then 0 else 1 + Find(s[1..], c)
  }

  function Parse(v: string): Option<Entry> {
    var bar := Find(v, '|');
    if bar == |v| then None
    else
      var r := v[bar + 1..];
      var bar2 := Find(r, '|');
      if bar2 < |r| then Some(Entry(v[..bar], r[..bar2], if bar2 + 1 < |r| then r[bar2 + 1] else NUL))
      else Some(Entry(v[..bar], r, if '\\' in r then '\\' else '/'))
  }

  lemma {:induction false} FindIs(a: string, b: string, c: char)
    requires c !in a && (b == "" || b[0] == c)
    ensures Find(a + b, c) == |a|
    decreases |a|
  {
    if a == "" {
      assert a + b == b;
    } else {
      assert (a + b)[1..] == a[1..] + b;
      FindIs(a[1..], b, c);
    }
  }

  /**
    A value is a map when it has a bar: the local prefix, the remote prefix, and after a
    second bar the separator, its first character only. Without one the separator is a
    backslash if the remote prefix has any.
  */
  lemma ParseReads(local: string, remote: string, tail: string)
    requires '|' !in local && '|' !in remote
    ensures Parse(local) == None
    ensures Parse(local + "|" + remote) == Some(Entry(local, remote, if '\\' in remote then '\\' else '/'))
    ensures Parse(local + "|" + remote + "|" + tail) == Some(Entry(local, remote, if tail == "" then NUL else tail[0]))
  {
    FindIs(local, "", '|');
    assert local + "" == local;
    var v := local + "|" + remote;
    assert v == local + ("|" + remote) && v[..|local|] == local && v[|local| + 1..] == remote;
    FindIs(local, "|" + remote, '|');
    FindIs(remote, "", '|');
    assert remote + "" == remote;
    ParseThree(local, remote, tail);
  }

  lemma ParseThree(local: string, remote: string, tail: string)
    requires '|' !in local && '|' !in remote
    ensures Parse(local + "|" + remote + "|" + tail) == Some(Entry(local, remote, if tail == "" then NUL else tail[0]))
  {
    var r := remote + ("|" + tail);
    var v := local + "|" + remote + "|" + tail;
    assert v == local + ("|" + r) && v[..|local|] == local && v[|local| + 1..] == r;
    FindIs(local, "|" + r, '|');
    FindIs(remote, "|" + tail, '|');
    assert r[..|remote|] == remote;
  }

  /** The maps there are, in the order of their numbers. */
  function Entries(maps: seq<Option<string>>): seq<Entry> {
    if maps == [] then []
    else
      var es := Entries(maps[..|maps| - 1]);
      var v := maps[|maps| - 1];
      if v.Some? && Parse(v.value).Some? then es + [Parse(v.value).value] else es
  }

  predicate IsMap(v: Option<string>) { v.Some? && '|' in v.value }

  /** Every value with a bar is a map, in the order of the numbers, and nothing else is. */
  lemma {:induction false} EntriesAre(maps: seq<Option<string>>, i: nat)
    requires i < |maps| && IsMap(maps[i])
    ensures var k := |Entries(maps[..i])|; Parse(maps[i].value).Some? && k < |Entries(maps)| && Entries(maps)[k] == Parse(maps[i].value).value
    ensures |Entries(maps)| == Maps(maps)
    decreases |maps|
  {
    var n := |maps| - 1;
    BarParses(maps[i].value);
    EntriesCount(maps);
    if i < n {
      EntriesAre(maps[..n], i);
      assert maps[..n][..i] == maps[..i];
    }
  }

  /** How many values have a bar. */
  function Maps(maps: seq<Option<string>>): nat {
    if maps == [] then 0 else Maps(maps[..|maps| - 1]) + (if IsMap(maps[|maps| - 1]) then 1 else 0)
  }

  lemma BarParses(v: string)
    ensures Parse(v).Some? <==> '|' in v
  {
    var n := Find(v, '|');
    if n == |v| { assert v[..n] == v; }
  }

  lemma {:induction false} EntriesCount(maps: seq<Option<string>>)
    ensures |Entries(maps)| == Maps(maps)
  {
    if maps != [] {
      EntriesCount(maps[..|maps| - 1]);
      var v := maps[|maps| - 1];
      if v.Some? { BarParses(v.value); }
    }
  }

  method Load(maps: seq<Option<string>>) returns (es: seq<Entry>)
    ensures es == Entries(maps)
  {
    es := [];
    for i := 0 to |maps|
      invariant es == Entries(maps[..i])
    {
      assert maps[..i + 1][..i] == maps[..i];
      if maps[i].Some? {
        var e := Parse(maps[i].value);
        if e.Some? { es := es + [e.value]; }
      }
    }
    assert maps[..|maps|] == maps;
  }

  predicate Clean(e: Entry) { NulFree(e.local) && NulFree(e.remote) }

  // ---------------------------------------------------------------- which map applies

  /** The local prefix without its trailing slashes, though never less than one character. */
  function Norm(p: string): (r: string)
    ensures r <= p
  {
    if |p| > 1 && p[|p| - 1] == '/' then Norm(p[..|p| - 1]) else p
  }

  /** `cwd` is `p` or goes on with a slash after it. */
  predicate Under(cwd: string, p: string) {
    p != "" && p <= cwd && (|cwd| == |p| || cwd[|p|] == '/')
  }

  function Render(cs: seq<string>): string {
    if cs == [] then "" else "/" + cs[0] + Render(cs[1..])
  }

  predicate Component(c: string) { c != "" && '/' !in c }

  lemma NormIgnoresSlash(p: string)
    requires p != ""
    ensures Norm(p + "/") == Norm(p)
  {
    assert (p + "/")[..|p|] == p;
  }

  lemma {:induction false} RenderNorm(cs: seq<string>)
    requires forall c :: c in cs ==> Component(c)
    ensures Norm(Render(cs)) == Render(cs)
    ensures cs != [] ==> Render(cs) != "" && Render(cs)[|Render(cs)| - 1] != '/'
    decreases |cs|
  {
    if cs != [] {
      assert cs[0] in cs;
      RenderNorm(cs[1..]);
      if |cs| == 1 { assert Render(cs) == "/" + cs[0]; }
    }
  }

  lemma NoSlash(c: string)
    requires Component(c)
    ensures forall i :: 0 <= i < |c| ==> c[i] != '/'
  {
    forall i | 0 <= i < |c| ensures c[i] != '/' { assert c[i] in c; }
  }

  lemma FirstComponent(a: string, b: string, u: string, w: string)
    requires Component(a) && Component(b) && a + u <= b + w
    requires (u == "" || u[0] == '/') && (w == "" || w[0] == '/')
    requires u == "" ==> |b + w| == |a| || (b + w)[|a|] == '/'
    ensures a == b && u <= w
  {
    var s := b + w;
    assert a <= s;
    NoSlash(a);
    NoSlash(b);
    if u != "" { assert s[|a|] == (a + u)[|a|] == u[0]; }
    assert |s| == |a| || s[|a|] == '/';
    assert |s| == |b| || s[|b|] == '/';
    if |a| == |b| {
      assert a == s[..|a|] == b;
      assert u == (a + u)[|a|..] && w == s[|a|..];
    }
  }

  lemma UnderCons(h: string, u: string, w: string)
    requires h != ""
    ensures Under(h + w, h + u) <==> u <= w && (|w| == |u| || w[|u|] == '/')
  {
    if h + u <= h + w {
      assert u == (h + u)[|h|..] && w == (h + w)[|h|..];
    }
  }

  /**
    On clean absolute paths a prefix applies exactly when its components are the first
    components of the directory: `/mnt/proj` is not a prefix of `/mnt/project`.
  */
  lemma {:induction false} UnderIsComponentPrefix(ds: seq<string>, cs: seq<string>)
    requires cs != [] && (forall c :: c in cs ==> Component(c)) && (forall d :: d in ds ==> Component(d))
    ensures Under(Render(ds), Norm(Render(cs))) <==> cs <= ds
    decreases |cs|
  {
    RenderNorm(cs);
    if ds != [] {
      assert cs[0] in cs && ds[0] in ds;
      var u, w := Render(cs[1..]), Render(ds[1..]);
      if cs[0] == ds[0] {
        UnderCons("/" + cs[0], u, w);
        assert cs <= ds <==> cs[1..] <= ds[1..];
        if |cs| > 1 {
          UnderIsComponentPrefix(ds[1..], cs[1..]);
          RenderNorm(cs[1..]);
        }
      } else {
        HeadsAgree(cs[0], ds[0], u, w);
      }
    }
  }

  lemma HeadsAgree(a: string, b: string, u: string, w: string)
    requires Component(a) && Component(b) && a != b
    requires (u == "" || u[0] == '/') && (w == "" || w[0] == '/')
    ensures !Under("/" + b + w, "/" + a + u)
  {
    if Under("/" + b + w, "/" + a + u) {
      Assoc("/", a, u);
      Assoc("/", b, w);
      assert a + u == ("/" + a + u)[1..] && b + w == ("/" + b + w)[1..];
      FirstComponent(a, b, u, w);
    }
  }

  /** A prefix of "/" applies to no clean directory but the root. */
  lemma RootPrefix(ds: seq<string>)
    requires ds != [] && forall d :: d in ds ==> Component(d)
    ensures !Under(Render(ds), Norm("/")) && Under("/", Norm("/"))
  {
    assert ds[0] in ds;
    assert Render(ds)[1] == ds[0][0];
    assert ds[0][0] in ds[0];
  }

  method PfxNormLen(pfx: string) returns (n: nat)
    ensures n <= |pfx| && pfx[..n] == Norm(pfx)
  {
    n := |pfx|;
    assert pfx[..n] == pfx;
    while n > 1 && pfx[n - 1] == '/'
      invariant n <= |pfx| && Norm(pfx[..n]) == Norm(pfx)
    {
      assert pfx[..n][..n - 1] == pfx[..n - 1];
      n := n - 1;
    }
  }

  /** How much of the directory a map's local prefix takes; -1 if the map does not apply. */
  function Taken(e: Entry, cwd: string): int {
    if Under(cwd, Norm(e.local)) then |Norm(e.local)| else -1
  }

  method PfxMatch(cwd: string, e: Entry) returns (m: int)
    ensures m == Taken(e, cwd) && m <= |cwd|
  {
    var n := PfxNormLen(e.local);
    if n <= 0 || !(e.local[..n] <= cwd) { return -1; }
    if n < |cwd| && cwd[n] != '/' { return -1; }
    return n;
  }

  /** The first of the maps that take most of the directory. */
  predicate Best(es: seq<Entry>, cwd: string, k: nat)
    requires k < |es|
  {
    && Under(cwd, Norm(es[k].local))
    && (forall j :: 0 <= j < |es| ==> Taken(es[j], cwd) <= Taken(es[k], cwd))
    && (forall j :: 0 <= j < k ==> Taken(es[j], cwd) < Taken(es[k], cwd))
  }

  method Choose(es: seq<Entry>, cwd: string) returns (k: Option<nat>, bestlen: int)
    ensures k.Some? ==> k.value < |es| && bestlen == Taken(es[k.value], cwd)
    ensures k.Some? ==> k.value < |es| && Best(es, cwd, k.value)
    ensures k.None? <==> forall e :: e in es ==> !Under(cwd, Norm(e.local))
  {
    k, bestlen := None, -1;
    for i := 0 to |es|
      invariant k.None? ==> bestlen == -1
      invariant k.Some? ==> k.value < i && bestlen == Taken(es[k.value], cwd) > 0
      invariant k.Some? ==> forall j :: 0 <= j < k.value ==> Taken(es[j], cwd) < bestlen
      invariant forall j :: 0 <= j < i ==> Taken(es[j], cwd) <= bestlen
    {
      var m := PfxMatch(cwd, es[i]);
      if m > bestlen {
        k, bestlen := Some(i), m;
      }
    }
    if k.Some? { assert es[k.value] in es; }
  }

  // ---------------------------------------------------------------- forward

  function Conv(s: string, from: char, to: char): (r: string)
    ensures |r| == |s|
  {
    if s == "" then "" else [if s[0] == from then to else s[0]] + Conv(s[1..], from, to)
  }

  lemma {:induction false} ConvAt(s: string, from: char, to: char)
    ensures forall i :: 0 <= i < |s| ==> Conv(s, from, to)[i] == if s[i] == from then to else s[i]
  {
    if s != "" {
      ConvAt(s[1..], from, to);
      assert forall i :: 0 < i < |s| ==> s[i] == s[1..][i - 1];
    }
  }

  predicate EndsWith(s: string, c: char) { s != "" && s[|s| - 1] == c }

  /** What is appended of the rest of the directory: no separator is doubled where the two parts meet. */
  function Kept(remote: string, rest: string, sep: char): string {
    if rest != "" && rest[0] == '/' && EndsWith(remote, sep) then rest[1..] else rest
  }

  function Mapped(remote: string, rest: string, sep: char): string {
    remote + Conv(Kept(remote, rest, sep), '/', sep)
  }

  /** The converting loop, from position `n` of the buffer. */
  method AppendConv(out: array<char>, n: nat, rest: string, sep: char) returns (ok: bool)
    requires n < out.Length && NulFree(out[..n]) && NulFree(rest) && sep != NUL
    modifies out
    ensures ok <==> n + |rest| < out.Length
    ensures ok ==> Holds(out, old(out[..n]) + Conv(rest, '/', sep))
  {
    ghost var head, tail := out[..n], Conv(rest, '/', sep);
    ConvAt(rest, '/', sep);
    var j := 0;
    assert out[..n] == head + tail[..0];
    while j < |rest|
      invariant j <= |rest| && n + j < out.Length && out[..n + j] == head + tail[..j]
    {
      if n + j >= out.Length - 1 { return false; }
      out[n + j] := if rest[j] == '/' then sep else rest[j];
      assert tail[..j + 1] == tail[..j] + [tail[j]];
      assert out[..n + j + 1] == out[..n + j] + [out[n + j]];
      j := j + 1;
    }
    out[n + j] := NUL;
    assert tail[..j] == tail;
    return true;
  }

  method PmBuild(out: array<char>, remote: string, rest: string, sep: char) returns (ok: bool)
    requires NulFree(remote) && NulFree(rest) && sep != NUL
    modifies out
    ensures ok <==> |Mapped(remote, rest, sep)| < out.Length
    ensures ok ==> Holds(out, Mapped(remote, rest, sep))
  {
    var n := StrLcpy(out, remote);
    if n >= out.Length { return false; }
    if rest != "" && rest[0] == '/' && n > 0 && out[n - 1] == sep {
      assert out[n - 1] == out[..n][n - 1];
      ok := AppendConv(out, n, rest[1..], sep);
    } else {
      assert n > 0 ==> out[n - 1] == out[..n][n - 1];
      ok := AppendConv(out, n, rest, sep);
    }
  }

  function ForwardSep(e: Entry): (c: char)
    ensures c != NUL
  {
    if e.sep == NUL then '/' else e.sep
  }

  /** What the directory becomes under a map that applies to it. */
  function Remote(e: Entry, cwd: string): string
    requires Under(cwd, Norm(e.local))
  {
    Mapped(e.remote, cwd[|Norm(e.local)|..], ForwardSep(e))
  }

  /** The components `ds`, each after a separator. */
  function Deep(ds: seq<string>, sep: char): string {
    if ds == [] then "" else [sep] + ds[0] + Deep(ds[1..], sep)
  }

  lemma {:induction false} ConvAppend(a: string, b: string, from: char, to: char)
    ensures Conv(a + b, from, to) == Conv(a, from, to) + Conv(b, from, to)
  {
    if a == "" {
      assert a + b == b;
    } else {
      assert (a + b)[1..] == a[1..] + b;
      ConvAppend(a[1..], b, from, to);
    }
  }

  lemma {:induction false} ConvRender(ds: seq<string>, sep: char)
    requires forall d :: d in ds ==> Component(d)
    ensures Conv(Render(ds), '/', sep) == Deep(ds, sep)
  {
    if ds != [] {
      assert ds[0] in ds;
      ConvRender(ds[1..], sep);
      ConvAppend("/" + ds[0], Render(ds[1..]), '/', sep);
      ConvAppend("/", ds[0], '/', sep);
      ConvAt(ds[0], '/', sep);
      NoSlash(ds[0]);
      assert Conv(ds[0], '/', sep) == ds[0];
    }
  }

  lemma {:induction false} RenderAppend(cs: seq<string>, ds: seq<string>)
    ensures Render(cs + ds) == Render(cs) + Render(ds)
  {
    if cs == [] {
      assert cs + ds == ds && "" + Render(ds) == Render(ds);
    } else {
      assert (cs + ds)[1..] == cs[1..] + ds;
      RenderAppend(cs[1..], ds);
    }
  }

  /**
    Forward, component by component: the directory cs/ds under a map from cs becomes the
    remote prefix with each of ds after a separator of the map, none doubled where they
    meet; a map without a separator has a slash.
  */
  lemma RemoteIs(e: Entry, cs: seq<string>, ds: seq<string>)
    requires cs != [] && (forall c :: c in cs ==> Component(c)) && (forall d :: d in ds ==> Component(d)) && e.local == Render(cs)
    ensures var sep, cwd := if e.sep == NUL then '/' else e.sep, Render(cs + ds);
      && Under(cwd, Norm(e.local))
      && Remote(e, cwd) == e.remote + if ds != [] && e.remote != "" && e.remote[|e.remote| - 1] == sep then Deep(ds, sep)[1..] else Deep(ds, sep)
  {
    var sep, rest := if e.sep == NUL then '/' else e.sep, Render(ds);
    RenderNorm(cs);
    RenderAppend(cs, ds);
    ConvRender(ds, sep);
    assert Render(cs + ds)[|Render(cs)|..] == rest;
    if ds != [] { ConvTail(rest, sep); }
  }

  lemma ConvTail(s: string, sep: char)
    requires s != ""
    ensures Conv(s[1..], '/', sep) == Conv(s, '/', sep)[1..]
  {
  }

  datatype Outcome = NotMapped | MappedBy(k: nat) | TooLong

  /**
    The directory to ask for: that of the longest matching prefix, untruncated; nothing
    when no prefix matches; an error when it does not fit.
  */
  method PmCwd(maps: seq<Option<string>>, cwd: string, out: array<char>) returns (r: Outcome)
    requires NulFree(cwd) && forall e :: e in Entries(maps) ==> Clean(e)
    modifies out
    ensures var es := Entries(maps);
      && (r.NotMapped? <==> forall e :: e in es ==> !Under(cwd, Norm(e.local)))
      && (r.MappedBy? ==> r.k < |es| && Best(es, cwd, r.k) && Holds(out, Remote(es[r.k], cwd)))
      && (r.TooLong? ==> exists k :: 0 <= k < |es| && Best(es, cwd, k) && |Remote(es[k], cwd)| >= out.Length)
  {
    var es := Load(maps);
    var k, bestlen := Choose(es, cwd);
    if k.None? { return NotMapped; }
    var e := es[k.value];
    assert e in es;
    var ok := PmBuild(out, e.remote, cwd[bestlen..], ForwardSep(e));
    return if ok then MappedBy(k.value) else TooLong;
  }

  // ---------------------------------------------------------------- backward

  function Lower(c: char): char {
    if 'A' <= c <= 'Z' then c - 'A' + 'a' else c
  }

  predicate SameChar(a: char, b: char, ci: bool) { if ci then Lower(a) == Lower(b) else a == b }

  /** Case is that of the 26 letters, and counts unless the map has backslashes. */
  lemma SameLetter(a: char, b: char)
    ensures SameChar(a, b, false) <==> a == b
    ensures SameChar(a, b, true) <==>
      a == b || ('A' <= a <= 'Z' && b as int == a as int + 32) || ('A' <= b <= 'Z' && a as int == b as int + 32)
  {
  }

  predicate Matches(hay: string, needle: string, ci: bool) {
    |needle| <= |hay| && forall i :: 0 <= i < |needle| ==> SameChar(hay[i], needle[i], ci)
  }

  /** A map whose remote prefix stands at the head of the text. */
  predicate Hits(e: Entry, s: string) { e.remote != "" && Matches(s, e.remote, e.sep == '\\') }

  /** The first map that hits, from the `m`-th on; the number of maps if none does. */
  function FirstHit(es: seq<Entry>, s: string, m: nat): (k: nat)
    requires m <= |es|
    ensures m <= k <= |es| && (k < |es| ==> Hits(es[k], s))
    decreases |es| - m
  {
    if m == |es| || Hits(es[m], s) then m else FirstHit(es, s, m + 1)
  }

  /** The first hit is the lowest-numbered map that hits. */
  lemma {:induction false} FirstHitIs(es: seq<Entry>, s: string, m: nat, k: nat)
    requires m <= k <= |es| && (k < |es| ==> Hits(es[k], s))
    ensures FirstHit(es, s, m) == k <==> forall j :: m <= j < k ==> !Hits(es[j], s)
    decreases k - m
  {
    if m < k { FirstHitIs(es, s, m + 1, k); }
  }

  predicate EndsToken(c: char) { c == ' ' || c == '\t' || c == '"' }

  function TokenLen(s: string): (n: nat)
    ensures n <= |s|
  {
    if s == "" || EndsToken(s[0]) then 0 else 1 + TokenLen(s[1..])
  }

  /** The token at the head of `tail` is its first `n` characters. */
  ghost predicate TokenAt(tail: string, n: nat) {
    n <= |tail| && (n < |tail| ==> EndsToken(tail[n])) && forall i :: 0 <= i < n ==> !EndsToken(tail[i])
  }

  lemma {:induction false} TokenLenIs(s: string, n: nat)
    ensures TokenLen(s) == n <==> TokenAt(s, n)
    decreases |s|
  {
    if s != "" && !EndsToken(s[0]) {
      if n > 0 {
        TokenLenIs(s[1..], n - 1);
        assert forall i :: 0 < i < |s| ==> s[i] == s[1..][i - 1];
        if TokenAt(s[1..], n - 1) {
          assert TokenAt(s, n);
        }
        if TokenAt(s, n) {
          forall i | 0 <= i < n - 1 ensures !EndsToken(s[1..][i]) { assert s[1..][i] == s[i + 1]; }
        }
      }
    }
  }

  /** How far the token after a remote prefix is rewritten: not at all unless the map is a backslash map. */
  function Rewritten(e: Entry, after: string): (n: nat)
    ensures n <= |after|
  {
    if e.sep == '\\' then TokenLen(after) else 0
  }

  /** What is written for the head of a nonempty line, and how much of the line that stands for. */
  function Turn(es: seq<Entry>, s: string): (r: (string, nat))
    requires s != ""
    ensures 1 <= r.1 <= |s|
  {
    var k := FirstHit(es, s, 0);
    if k == |es| then ([s[0]], 1)
    else
      var after := s[|es[k].remote|..];
      var n := Rewritten(es[k], after);
      (Norm(es[k].local) + Conv(after[..n], '\\', '/'), |es[k].remote| + n)
  }

  /** A line with its remote prefixes turned into local ones, without regard to length. */
  function Back(es: seq<Entry>, s: string): string
    decreases |s|
  {
    if s == "" then "" else Turn(es, s).0 + Back(es, s[Turn(es, s).1..])
  }

  /** The buffer holds `tail` from position `li` on. */
  ghost predicate TailAt(line: array<char>, li: nat, tail: string)
    reads line
  {
    && li + |tail| < line.Length && NulFree(tail) && line[li + |tail|] == NUL
    && forall j :: 0 <= j < |tail| ==> line[li + j] == tail[j]
  }

  method AtMatch(hay: array<char>, at: nat, needle: string, ci: bool, ghost s: string) returns (n: int)
    requires TailAt(hay, at, s) && NulFree(needle)
    ensures n == if Matches(s, needle, ci) then |needle| else -1
  {
    var i := 0;
    while i < |needle|
      invariant i <= |needle| && i <= |s|
      invariant forall j :: 0 <= j < i ==> SameChar(s[j], needle[j], ci)
    {
      assert i < |s| ==> s[i] in s;
      if hay[at + i] == NUL { return -1; }
      if !SameChar(hay[at + i], needle[i], ci) { return -1; }
      i := i + 1;
    }
    return i;
  }

  /** The first map that hits at a position of the line. */
  method FindMap(es: seq<Entry>, hay: array<char>, at: nat, ghost s: string) returns (k: nat)
    requires TailAt(hay, at, s) && forall e :: e in es ==> Clean(e)
    ensures k == FirstHit(es, s, 0)
  {
    k := 0;
    while k < |es|
      invariant k <= |es| && FirstHit(es, s, 0) == FirstHit(es, s, k)
    {
      assert es[k] in es;
      var rlen := AtMatch(hay, at, es[k].remote, es[k].sep == '\\', s);
      if rlen > 0 { return; }
      k := k + 1;
    }
  }

  /** What has been written is as much of `text` as may be. */
  ghost predicate Wrote(out: array<char>, oi: nat, text: string)
    reads out
  {
    oi <= OUT_LIMIT < out.Length && out[..oi] == Fit(text, OUT_LIMIT + 1) && NulFree(text)
  }

  /** At the limit, nothing more is written. */
  lemma WroteMore(out: array<char>, text: string, more: string)
    requires Wrote(out, OUT_LIMIT, text) && NulFree(more)
    ensures Wrote(out, OUT_LIMIT, text + more)
  {
    assert |Fit(text, OUT_LIMIT + 1)| == OUT_LIMIT;
    FitAppend(text, more, OUT_LIMIT + 1);
  }

  method Put(out: array<char>, oi: nat, c: char, ghost text: string)
    requires Wrote(out, oi, text) && oi < OUT_LIMIT && c != NUL
    modifies out
    ensures Wrote(out, oi + 1, text + [c])
  {
    out[oi] := c;
    assert out[..oi + 1] == text + [c];
  }

  /** Emit a local prefix, as far as there is room. */
  method Emit(out: array<char>, oi: nat, local: string, ghost text: string) returns (oi': nat)
    requires Wrote(out, oi, text) && NulFree(local)
    modifies out
    ensures Wrote(out, oi', text + local)
  {
    oi' := oi;
    var j := 0;
    assert local[..0] == "" && text + "" == text;
    while j < |local| && oi' < OUT_LIMIT
      invariant j <= |local| && Wrote(out, oi', text + local[..j])
    {
      assert text + local[..j + 1] == text + local[..j] + [local[j]];
      Put(out, oi', local[j], text + local[..j]);
      oi', j := oi' + 1, j + 1;
    }
    assert text + local == text + local[..j] + local[j..];
  }

  /** Turn a token's separators back, up to its end or the room there is. */
  method EmitToken(out: array<char>, oi: nat, line: array<char>, li: nat, ghost tail: string, ghost n: nat, ghost text: string)
    returns (oi': nat, j: nat)
    requires Wrote(out, oi, text) && TailAt(line, li, tail) && TokenAt(tail, n) && line != out
    modifies out
    ensures Wrote(out, oi', text + Conv(tail[..n], '\\', '/'))
    ensures j <= |tail| && (oi' < OUT_LIMIT ==> j == n)
  {
    oi', j := oi, 0;
    ghost var conv := Conv(tail[..n], '\\', '/');
    ConvAt(tail[..n], '\\', '/');
    assert conv[..0] == "" && text + "" == text;
    while line[li + j] != NUL && !EndsToken(line[li + j]) && oi' < OUT_LIMIT
      invariant j <= n && Wrote(out, oi', text + conv[..j])
      decreases n - j
    {
      var c := if line[li + j] == '\\' then '/' else line[li + j];
      assert c == conv[j];
      assert text + conv[..j + 1] == text + conv[..j] + [c];
      Put(out, oi', c, text + conv[..j]);
      oi', j := oi' + 1, j + 1;
    }
    if j < n {
      assert tail[j] in tail;
      WroteMore(out, text + conv[..j], conv[j..]);
      assert text + conv == text + conv[..j] + conv[j..];
    } else {
      assert conv[..j] == conv;
    }
  }

  /** One turn of the loop over the line: a hit with what follows it, or a single character. */
  method Step(es: seq<Entry>, out: array<char>, oi: nat, line: array<char>, li: nat, ghost tail: string, ghost done: string)
    returns (oi': nat, li': nat)
    requires Wrote(out, oi, done) && oi < OUT_LIMIT && TailAt(line, li, tail) && tail != "" && line != out
    requires forall e :: e in es ==> Clean(e)
    modifies out
    ensures Wrote(out, oi', done + Turn(es, tail).0)
    ensures li' < line.Length && (oi' < OUT_LIMIT ==> li' == li + Turn(es, tail).1)
  {
    var k := FindMap(es, line, li, tail);
    if k == |es| {
      assert tail[0] in tail;
      Put(out, oi, line[li], done);
      oi', li' := oi + 1, li + 1;
    } else {
      assert es[k] in es;
      ghost var after := tail[|es[k].remote|..];
      oi', li' := StepHit(es[k], out, oi, line, li, tail, after, done);
    }
  }

  method StepHit(e: Entry, out: array<char>, oi: nat, line: array<char>, li: nat, ghost tail: string, ghost after: string, ghost done: string)
    returns (oi': nat, li': nat)
    requires Wrote(out, oi, done) && TailAt(line, li, tail) && line != out && Clean(e)
    requires |e.remote| <= |tail| && after == tail[|e.remote|..]
    modifies out
    ensures Wrote(out, oi', done + (Norm(e.local) + Conv(after[..Rewritten(e, after)], '\\', '/')))
    ensures li' < line.Length && (oi' < OUT_LIMIT ==> li' == li + |e.remote| + Rewritten(e, after))
  {
    ghost var n := Rewritten(e, after);
    ghost var local, conv := Norm(e.local), Conv(after[..n], '\\', '/');
    Assoc(done, local, conv);
    var ll := PfxNormLen(e.local);
    oi' := Emit(out, oi, e.local[..ll], done);
    li' := li + |e.remote|;
    if e.sep == '\\' {
      TokenLenIs(after, n);
      var j;
      oi', j := EmitToken(out, oi', line, li', after, n, done + local);
      li' := li' + j;
    } else {
      assert conv == "" && done + local + conv == done + local;
    }
  }

  lemma NulFreeAt(s: string)
    requires NulFree(s)
    ensures forall i :: 0 <= i < |s| ==> s[i] != NUL
  {
    forall i | 0 <= i < |s| ensures s[i] != NUL { assert s[i] in s; }
  }

  lemma TailMoves(line: array<char>, li: nat, tail: string, n: nat)
    requires TailAt(line, li, tail) && n <= |tail|
    ensures TailAt(line, li + n, tail[n..])
  {
  }

  lemma TailEnds(line: array<char>, li: nat, tail: string)
    requires TailAt(line, li, tail)
    ensures line[li] == NUL <==> tail == ""
  {
    NulFreeAt(tail);
    if tail != "" { assert tail[0] == line[li + 0]; }
  }

  method Advance(es: seq<Entry>, out: array<char>, oi: nat, line: array<char>, li: nat, ghost tail: string, ghost done: string, ghost whole: string)
    returns (oi': nat, li': nat, ghost done': string, ghost tail': string)
    requires Wrote(out, oi, done) && oi < OUT_LIMIT && TailAt(line, li, tail) && tail != "" && line != out
    requires whole == done + Back(es, tail) && forall e :: e in es ==> Clean(e)
    modifies out
    ensures whole == done' + Back(es, tail') && |tail'| < |tail| && NulFree(tail')
    ensures Wrote(out, oi', done') && li' < line.Length && (oi' < OUT_LIMIT ==> TailAt(line, li', tail'))
  {
    oi', li' := Step(es, out, oi, line, li, tail, done);
    Advanced(es, line, li, tail, done, whole);
    done', tail' := done + Turn(es, tail).0, tail[Turn(es, tail).1..];
  }

  lemma Advanced(es: seq<Entry>, line: array<char>, li: nat, tail: string, done: string, whole: string)
    requires TailAt(line, li, tail) && tail != "" && whole == done + Back(es, tail)
    ensures var rest := tail[Turn(es, tail).1..];
      && whole == (done + Turn(es, tail).0) + Back(es, rest)
      && |rest| < |tail| && NulFree(rest) && TailAt(line, li + Turn(es, tail).1, rest)
  {
    BackTurn(es, tail, done, whole);
    TailMoves(line, li, tail, Turn(es, tail).1);
  }

  /** The loop over the line. */
  method Translate(es: seq<Entry>, out: array<char>, line: array<char>, ghost s: string) returns (oi: nat)
    requires TailAt(line, 0, s) && line != out && OUT_LIMIT < out.Length && forall e :: e in es ==> Clean(e)
    modifies out
    ensures Wrote(out, oi, Back(es, s))
  {
    var li: nat;
    li, oi := 0, 0;
    ghost var done, tail, whole := "", s, Back(es, s);
    assert done + whole == whole;
    TailEnds(line, li, tail);
    while line[li] != NUL && oi < OUT_LIMIT
      invariant li < line.Length && Wrote(out, oi, done) && NulFree(tail)
      invariant oi < OUT_LIMIT ==> (line[li] == NUL <==> tail == "")
      invariant whole == done + Back(es, tail)
      invariant oi < OUT_LIMIT ==> TailAt(line, li, tail)
      decreases |tail|
    {
      oi, li, done, tail := Advance(es, out, oi, line, li, tail, done, whole);
      if oi < OUT_LIMIT { TailEnds(line, li, tail); }
    }
    Translated(es, out, oi, done, tail);
  }

  lemma BackTurn(es: seq<Entry>, s: string, done: string, whole: string)
    requires s != "" && whole == done + Back(es, s)
    ensures whole == (done + Turn(es, s).0) + Back(es, s[Turn(es, s).1..])
  {
    Assoc(done, Turn(es, s).0, Back(es, s[Turn(es, s).1..]));
  }

  /** The loop ends at the end of the line or of the room, and then nothing that would fit is missing. */
  lemma Translated(es: seq<Entry>, out: array<char>, oi: nat, done: string, tail: string)
    requires Wrote(out, oi, done) && NulFree(tail) && (oi == OUT_LIMIT || tail == "")
    requires forall e :: e in es ==> Clean(e)
    ensures Wrote(out, oi, done + Back(es, tail))
  {
    if oi == OUT_LIMIT {
      BackNulFree(es, tail);
      WroteMore(out, done, Back(es, tail));
    } else {
      assert done + "" == done;
    }
  }

  /** Back-map a line in its buffer; with no maps it is left alone. */
  method PmBackLine(maps: seq<Option<string>>, line: array<char>, ghost s: string) returns (any: bool)
    requires Holds(line, s) && forall e :: e in Entries(maps) ==> Clean(e)
    modifies line
    ensures any <==> Entries(maps) != []
    ensures any ==> Holds(line, Fit(Fit(Back(Entries(maps), s), OUT_LIMIT + 1), line.Length))
    ensures !any ==> Holds(line, Back(Entries(maps), s))
  {
    var es := Load(maps);
    if es == [] {
      NoMapsNoChange(s);
      return false;
    }
    var out := new char[OUT_LIMIT + 2];
    assert forall j :: 0 <= j < |s| ==> line[j] == line[..|s|][j];
    var oi := Translate(es, out, line, s);
    var _ := StrLcpy(line, out[..oi]);
    return true;
  }

  lemma {:induction false} NoMapsNoChange(s: string)
    ensures Back([], s) == s
    decreases |s|
  {
    if s != "" { NoMapsNoChange(s[1..]); }
  }

  lemma ConvNulFree(s: string)
    requires NulFree(s)
    ensures NulFree(Conv(s, '\\', '/'))
  {
    ConvAt(s, '\\', '/');
  }

  lemma {:induction false} BackNulFree(es: seq<Entry>, s: string)
    requires NulFree(s) && forall e :: e in es ==> Clean(e)
    ensures NulFree(Back(es, s))
    decreases |s|
  {
    if s != "" {
      var k := FirstHit(es, s, 0);
      if k == |es| {
        BackNulFree(es, s[1..]);
      } else {
        assert es[k] in es;
        BackNulFree(es, s[Turn(es, s).1..]);
        ConvNulFree(s[|es[k].remote|..][..Turn(es, s).1 - |es[k].remote|]);
      }
    }
  }

  // ---------------------------------------------------------------- there and back

  /** Text with nothing in it that ends a token: no blank, tab or double quote. */
  predicate OneToken(s: string) { forall i :: 0 <= i < |s| ==> s[i] != ' ' && s[i] != '\t' && s[i] != '"' }

  predicate TokenOver(tail: string) { tail != "" ==> tail[0] == ' ' || tail[0] == '\t' || tail[0] == '"' }

  lemma ConvFixed(s: string, from: char, to: char)
    requires from != to
    ensures Conv(s, from, to) == s <==> from !in s
  {
    ConvAt(s, from, to);
    if from in s {
      var i :| 0 <= i < |s| && s[i] == from;
      assert Conv(s, from, to)[i] == to;
    }
  }

  lemma ConvTwice(s: string)
    ensures Conv(Conv(s, '/', '\\'), '\\', '/') == Conv(s, '\\', '/')
  {
    ConvAt(s, '/', '\\');
    ConvAt(Conv(s, '/', '\\'), '\\', '/');
    ConvAt(s, '\\', '/');
  }

  lemma TokenIs(t: string, tail: string)
    requires OneToken(t) && TokenOver(tail)
    ensures TokenLen(t + tail) == |t| && (t + tail)[..|t|] == t && (t + tail)[|t|..] == tail
  {
    TokenLenIs(t + tail, |t|);
  }

  /** Where no map hits, a line is copied. */
  lemma {:induction false} BackSkips(es: seq<Entry>, pre: string, s: string)
    requires forall i :: 0 <= i < |pre| ==> FirstHit(es, pre[i..] + s, 0) == |es|
    ensures Back(es, pre + s) == pre + Back(es, s)
    decreases |pre|
  {
    if pre == "" {
      assert pre + s == s && pre + Back(es, s) == Back(es, s);
    } else {
      assert pre[0..] + s == pre + s;
      assert (pre + s)[1..] == pre[1..] + s;
      forall i | 0 <= i < |pre| - 1 ensures FirstHit(es, pre[1..][i..] + s, 0) == |es| {
        assert pre[1..][i..] == pre[i + 1..];
      }
      BackSkips(es, pre[1..], s);
    }
  }

  /** A remote prefix followed by the rest of its token. */
  lemma BackHit(es: seq<Entry>, k: nat, t: string, tail: string)
    requires k < |es| && es[k].sep == '\\' && es[k].remote != ""
    requires OneToken(t) && TokenOver(tail)
    requires FirstHit(es, es[k].remote + t + tail, 0) == k
    ensures Back(es, es[k].remote + t + tail) == Norm(es[k].local) + Conv(t, '\\', '/') + Back(es, tail)
  {
    var r := es[k].remote;
    Assoc(r, t, tail);
    assert (r + (t + tail))[|r|..] == t + tail;
    TokenIs(t, tail);
  }

  /** The directory appears in a line as the daemon's tools would write it. */
  ghost predicate Mentions(es: seq<Entry>, k: nat, cwd: string, pre: string, tail: string)
    requires k < |es| && Under(cwd, Norm(es[k].local))
  {
    var s := Remote(es[k], cwd) + tail;
    && FirstHit(es, s, 0) == k
    && TokenOver(tail)
    && forall i :: 0 <= i < |pre| ==> FirstHit(es, pre[i..] + s, 0) == |es|
  }

  /**
    There and back: a mapped directory named anywhere in a line, no other map hitting
    before it, comes back as the local directory exactly when the directory has no
    backslash after the prefix and the remote prefix does not end in one (or nothing
    follows the prefix).
  */
  lemma MappedReadsBack(es: seq<Entry>, k: nat, cwd: string, pre: string, tail: string)
    requires k < |es| && es[k].sep == '\\' && es[k].remote != ""
    requires Under(cwd, Norm(es[k].local)) && OneToken(cwd) && Mentions(es, k, cwd, pre, tail)
    ensures var rest := cwd[|Norm(es[k].local)|..];
      (Back(es, pre + (Remote(es[k], cwd) + tail)) == pre + (cwd + Back(es, tail)))
      <==> ('\\' !in rest && (rest == "" || !EndsWith(es[k].remote, '\\')))
  {
    var e := es[k];
    var local := Norm(e.local);
    var rest := cwd[|local|..];
    var kept := Conv(Kept(e.remote, rest, '\\'), '\\', '/');
    MentionReads(es, k, cwd, pre, tail);
    KeptIsRest(e.remote, rest);
    CancelBoth(pre, local, kept, rest, Back(es, tail));
    Whole(cwd, local);
  }

  lemma Whole(cwd: string, local: string)
    requires local <= cwd
    ensures local + cwd[|local|..] == cwd
  {
  }

  /** What a mention of the directory turns into. */
  lemma MentionReads(es: seq<Entry>, k: nat, cwd: string, pre: string, tail: string)
    requires k < |es| && es[k].sep == '\\' && es[k].remote != ""
    requires Under(cwd, Norm(es[k].local)) && OneToken(cwd) && Mentions(es, k, cwd, pre, tail)
    ensures var rest := cwd[|Norm(es[k].local)|..];
      Back(es, pre + (Remote(es[k], cwd) + tail))
      == pre + (Norm(es[k].local) + Conv(Kept(es[k].remote, rest, '\\'), '\\', '/') + Back(es, tail))
  {
    var e := es[k];
    var n := |Norm(e.local)|;
    var kept := Kept(e.remote, cwd[n..], '\\');
    KeptOneToken(cwd, n, kept);
    BackSkips(es, pre, Remote(e, cwd) + tail);
    BackHit(es, k, Conv(kept, '/', '\\'), tail);
    ConvTwice(kept);
  }

  lemma KeptIsRest(remote: string, rest: string)
    requires rest == "" || rest[0] == '/'
    ensures Conv(Kept(remote, rest, '\\'), '\\', '/') == rest
      <==> '\\' !in rest && (rest == "" || !EndsWith(remote, '\\'))
  {
    ConvFixed(rest, '\\', '/');
  }

  lemma KeptOneToken(cwd: string, n: nat, kept: string)
    requires n <= |cwd| && OneToken(cwd) && (kept == cwd[n..] || (n < |cwd| && kept == cwd[n..][1..]))
    ensures OneToken(Conv(kept, '/', '\\'))
  {
    ConvAt(kept, '/', '\\');
  }

  lemma CancelBoth(pre: string, local: string, a: string, b: string, more: string)
    ensures pre + (local + a + more) == pre + ((local + b) + more) <==> a == b
  {
    var x, y := pre + (local + a + more), pre + ((local + b) + more);
    var n := |pre| + |local|;
    assert x[n..] == a + more && y[n..] == b + more;
    if x == y {
      assert |a| == |b|;
      assert a == x[n..][..|a|] && b == y[n..][..|b|];
    }
  }

  /**
    Backward, component boundaries are not looked at: whatever follows a remote prefix in
    its token is rewritten, and the result is a path the map covers exactly when nothing
    follows or a separator does.
  */
  lemma RewrittenUnder(es: seq<Entry>, k: nat, t: string, tail: string)
    requires k < |es| && es[k].sep == '\\' && es[k].remote != "" && es[k].local != ""
    requires OneToken(t) && TokenOver(tail)
    requires FirstHit(es, es[k].remote + t + tail, 0) == k
    ensures var p := Norm(es[k].local); var path := p + Conv(t, '\\', '/');
      && Back(es, es[k].remote + t + tail) == path + Back(es, tail)
      && (Under(path, p) <==> t == "" || t[0] == '\\' || t[0] == '/')
  {
    BackHit(es, k, t, tail);
    NormNonempty(es[k].local);
    ConvAt(t, '\\', '/');
    var p, c := Norm(es[k].local), Conv(t, '\\', '/');
    assert t != "" ==> (p + c)[|p|] == c[0];
  }

  /** Under a map without backslashes the prefix alone is replaced, and what follows it is looked at as any other text. */
  lemma SlashMapReplaces(es: seq<Entry>, k: nat, tail: string)
    requires k < |es| && es[k].sep != '\\' && es[k].remote != "" && FirstHit(es, es[k].remote + tail, 0) == k
    ensures Back(es, es[k].remote + tail) == Norm(es[k].local) + Back(es, tail)
  {
    var r := es[k].remote;
    assert (r + tail)[|r|..] == tail && Norm(es[k].local) + "" == Norm(es[k].local);
  }

  lemma NormNonempty(p: string)
    requires p != ""
    ensures Norm(p) != ""
  {
  }

  /** The sibling of a remote directory becomes the sibling of the local one, which the map does not cover. */
  lemma SiblingIsRewritten(es: seq<Entry>, k: nat, x: string)
    requires k < |es| && es[k].sep == '\\' && es[k].remote != "" && es[k].local != ""
    requires x != "" && x[0] != '/' && '\\' !in x && OneToken(x)
    requires FirstHit(es, es[k].remote + x, 0) == k
    ensures Back(es, es[k].remote + x) == Norm(es[k].local) + x
    ensures !Under(Norm(es[k].local) + x, Norm(es[k].local))
  {
    assert es[k].remote + x + "" == es[k].remote + x;
    RewrittenUnder(es, k, x, "");
    ConvFixed(x, '\\', '/');
    var path := Norm(es[k].local) + x;
    assert path + "" == path && x[0] in x;
  }

  lemma SiblingExample()
    ensures var es := [Entry("/mnt/proj", "Z:\\proj", '\\')];
      Back(es, "Z:\\project") == "/mnt/project" && !Under("/mnt/project", Norm("/mnt/proj"))
  {
    var es := [Entry("/mnt/proj", "Z:\\proj", '\\')];
    var x := "ect";
    assert es[0].remote + x == "Z:\\project" && "/mnt/proj" + x == "/mnt/project";
    assert Hits(es[0], "Z:\\project");
    SiblingIsRewritten(es, 0, x);
  }

  // ---------------------------------------------------------------- tokens

  /** What the filter makes of a line, piece by piece: characters copied, and local text put in place of remote. */
  datatype Piece = Copied(c: char) | Replaced(text: string)

  /** The start of the line, or the place after a character that ends a token. */
  predicate TokenStart(s: string, i: nat)
    requires i <= |s|
  {
    i == 0 || EndsToken(s[i - 1])
  }

  /** What the code does at the head of a line: whether a map hits, the text it writes, how far it goes. */
  datatype Cut = Cut(hit: bool, text: string, n: nat)

  function CutOf(es: seq<Entry>): string -> Cut {
    (x: string) => if x == "" then Cut(false, "", 0) else Cut(FirstHit(es, x, 0) < |es|, Turn(es, x).0, Turn(es, x).1)
  }

  ghost predicate Fits(cut: string -> Cut) {
    forall x: string :: FitsAt(cut, x)
  }

  predicate FitsAt(cut: string -> Cut, x: string) {
    x != "" ==> 1 <= cut(x).n <= |x| && (!cut(x).hit ==> cut(x).n == 1 && cut(x).text == [x[0]])
  }

  lemma CutFits(es: seq<Entry>)
    ensures Fits(CutOf(es))
  {
  }

  /** What the code makes of the line from place `i` on. */
  ghost function CodePieces(cut: string -> Cut, s: string, i: nat): seq<Piece>
    requires i <= |s| && Fits(cut)
    decreases |s| - i
  {
    if i == |s| then []
    else
      assert FitsAt(cut, s[i..]);
      var c := cut(s[i..]);
      [if c.hit then Replaced(c.text) else Copied(s[i])] + CodePieces(cut, s, i + c.n)
  }

  /** The documented filter: only tokens that begin with a remote prefix are touched. */
  ghost function DocumentedPieces(cut: string -> Cut, s: string, i: nat): seq<Piece>
    requires i <= |s| && Fits(cut)
    decreases |s| - i
  {
    if i == |s| then []
    else
      assert FitsAt(cut, s[i..]);
      var c := cut(s[i..]);
      if c.hit && TokenStart(s, i) then [Replaced(c.text)] + DocumentedPieces(cut, s, i + c.n)
      else [Copied(s[i])] + DocumentedPieces(cut, s, i + 1)
  }

  /** Where the code puts in local text. */
  ghost function Hitting(cut: string -> Cut, s: string, i: nat): (ps: seq<nat>)
    requires i <= |s| && Fits(cut)
    ensures forall p :: p in ps ==> i <= p < |s|
    decreases |s| - i
  {
    if i == |s| then []
    else
      assert FitsAt(cut, s[i..]);
      var c := cut(s[i..]);
      (if c.hit then [i] else []) + Hitting(cut, s, i + c.n)
  }

  function PieceText(ps: seq<Piece>): string {
    if ps == [] then "" else (if ps[0].Copied? then [ps[0].c] else ps[0].text) + PieceText(ps[1..])
  }

  /** A line as the code turns it, as the documentation has it, and the places where the code puts in local text. */
  ghost function Coded(es: seq<Entry>, s: string): seq<Piece> {
    CutFits(es);
    CodePieces(CutOf(es), s, 0)
  }

  ghost function Documented(es: seq<Entry>, s: string): seq<Piece> {
    CutFits(es);
    DocumentedPieces(CutOf(es), s, 0)
  }

  ghost function HitPlaces(es: seq<Entry>, s: string): seq<nat> {
    CutFits(es);
    Hitting(CutOf(es), s, 0)
  }

  /** A line turns into what is written for its head and what the rest turns into. */
  predicate UnrollsAt(back: string -> string, cut: string -> Cut, x: string) {
    if x == "" then back(x) == "" else cut(x).n <= |x| && back(x) == cut(x).text + back(x[cut(x).n..])
  }

  function BackOf(es: seq<Entry>): string -> string { (x: string) => Back(es, x) }

  lemma BackUnrollsAt(es: seq<Entry>, x: string)
    ensures UnrollsAt(BackOf(es), CutOf(es), x)
  {
  }

  lemma {:induction false} PiecesTell(back: string -> string, cut: string -> Cut, s: string, i: nat)
    requires i <= |s| && Fits(cut) && forall x: string :: UnrollsAt(back, cut, x)
    ensures PieceText(CodePieces(cut, s, i)) == back(s[i..])
    decreases |s| - i
  {
    assert FitsAt(cut, s[i..]) && UnrollsAt(back, cut, s[i..]);
    if i < |s| {
      var c := cut(s[i..]);
      PiecesTell(back, cut, s, i + c.n);
      PieceFirst(if c.hit then Replaced(c.text) else Copied(s[i]), CodePieces(cut, s, i + c.n));
      Chop(s, i, c.n);
    }
  }

  lemma Chop(s: string, i: nat, n: nat)
    requires i + n <= |s|
    ensures s[i..][n..] == s[i + n..]
  {
  }

  lemma PieceFirst(p: Piece, rest: seq<Piece>)
    ensures PieceText([p] + rest) == (if p.Copied? then [p.c] else p.text) + PieceText(rest)
  {
    assert ([p] + rest)[1..] == rest;
  }

  /** The pieces are those of the line the filter writes. */
  lemma PiecesAreBack(es: seq<Entry>, s: string)
    ensures PieceText(Coded(es, s)) == Back(es, s)
  {
    CutFits(es);
    forall x: string ensures UnrollsAt(BackOf(es), CutOf(es), x) { BackUnrollsAt(es, x); }
    PiecesTell(BackOf(es), CutOf(es), s, 0);
    assert s[0..] == s;
  }

  /**
    The filter replaces exactly the tokens that begin with a remote prefix if and only if
    every place where it puts in local text is the start of the line or follows a
    character that ends a token.
  */
  lemma AsDocumented(es: seq<Entry>, s: string)
    ensures Coded(es, s) == Documented(es, s) <==> forall p :: p in HitPlaces(es, s) ==> TokenStart(s, p)
  {
    CutFits(es);
    SamePieces(CutOf(es), s, 0);
    OnlyAtStarts(CutOf(es), s, 0);
  }

  /** Every hit from place `i` on stands at the start of a token. */
  ghost predicate StartsOnly(cut: string -> Cut, s: string, i: nat)
    requires i <= |s| && Fits(cut)
    decreases |s| - i
  {
    if i == |s| then true
    else
      assert FitsAt(cut, s[i..]);
      (cut(s[i..]).hit ==> TokenStart(s, i)) && StartsOnly(cut, s, i + cut(s[i..]).n)
  }

  lemma {:induction false} OnlyAtStarts(cut: string -> Cut, s: string, i: nat)
    requires i <= |s| && Fits(cut)
    ensures StartsOnly(cut, s, i) <==> forall p :: p in Hitting(cut, s, i) ==> TokenStart(s, p)
    decreases |s| - i
  {
    if i < |s| {
      assert FitsAt(cut, s[i..]);
      var c := cut(s[i..]);
      var rest := Hitting(cut, s, i + c.n);
      OnlyAtStarts(cut, s, i + c.n);
      if c.hit {
        forall p ensures p in [i] + rest <==> p == i || p in rest { }
      } else {
        assert [] + rest == rest;
      }
    }
  }

  lemma {:induction false} SamePieces(cut: string -> Cut, s: string, i: nat)
    requires i <= |s| && Fits(cut)
    ensures CodePieces(cut, s, i) == DocumentedPieces(cut, s, i) <==> StartsOnly(cut, s, i)
    decreases |s| - i
  {
    if i < |s| {
      assert FitsAt(cut, s[i..]);
      var c := cut(s[i..]);
      SamePieces(cut, s, i + c.n);
      if c.hit && !TokenStart(s, i) {
        assert CodePieces(cut, s, i)[0].Replaced? && DocumentedPieces(cut, s, i)[0].Copied?;
      } else {
        SameTails(if c.hit then Replaced(c.text) else Copied(s[i]), CodePieces(cut, s, i + c.n), DocumentedPieces(cut, s, i + c.n));
      }
    }
  }

  lemma SameTails(p: Piece, a: seq<Piece>, b: seq<Piece>)
    ensures [p] + a == [p] + b <==> a == b
  {
    assert ([p] + a)[1..] == a && ([p] + b)[1..] == b;
  }

  /** The documented filter leaves a line alone in which no token begins with a remote prefix. */
  lemma {:induction false} DocumentedLeaves(cut: string -> Cut, s: string, i: nat)
    requires i <= |s| && Fits(cut)
    requires forall p: nat :: i <= p < |s| && TokenStart(s, p) ==> !cut(s[p..]).hit
    ensures PieceText(DocumentedPieces(cut, s, i)) == s[i..]
    decreases |s| - i
  {
    if i < |s| {
      assert FitsAt(cut, s[i..]);
      DocumentedLeaves(cut, s, i + 1);
      PieceFirst(Copied(s[i]), DocumentedPieces(cut, s, i + 1));
    }
  }

  /** A line the documented filter leaves alone and the code does not: the remote prefix stands inside a token. */
  lemma InsideTokenExample()
    ensures var es, s := [Entry("/u", "Z:", '\\')], "aZ:\\x";
      Back(es, s) == "a/u/x" && PieceText(Documented(es, s)) == s && Coded(es, s) != Documented(es, s)
  {
    var es, s := [Entry("/u", "Z:", '\\')], "aZ:\\x";
    InsideTokenBack(es, s);
    InsideTokenDocumented(es, s);
    PiecesAreBack(es, s);
  }

  lemma InsideTokenBack(es: seq<Entry>, s: string)
    requires es == [Entry("/u", "Z:", '\\')] && s == "aZ:\\x"
    ensures Back(es, s) == "a/u/x"
  {
    assert !SameChar(s[0], es[0].remote[0], true);
    assert s[1..] == "Z:" + "\\x" + "";
    BackHit(es, 0, "\\x", "");
    ConvAt("\\x", '\\', '/');
    assert Back(es, s[1..]) == "/u/x";
    assert Back(es, s) == [s[0]] + Back(es, s[1..]);
  }

  lemma InsideTokenDocumented(es: seq<Entry>, s: string)
    requires es == [Entry("/u", "Z:", '\\')] && s == "aZ:\\x"
    ensures PieceText(Documented(es, s)) == s
  {
    CutFits(es);
    assert s[0..] == s && !SameChar(s[0], es[0].remote[0], true);
    assert FirstHit(es, s, 0) == |es|;
    OneStart(s);
    DocumentedLeaves(CutOf(es), s, 0);
  }

  lemma OneStart(s: string)
    requires s == "aZ:\\x"
    ensures forall p: nat :: p < |s| && TokenStart(s, p) ==> p == 0
  {
  }
}
