/**
  The command line handed to the shell: the job's variables are exported, each value as a
  single-quoted word, inside a subshell. The reader below follows section 2.2 (Quoting)
  of the POSIX Shell Command Language and knows nothing of how the words were written.
*/
module Shell {
  import opened Bytes
  import opened Util

  datatype Env = Env(name: string, val: string)

  /** A variable as the session accepts it: its name is a shell name. */
  predicate EnvOk(e: Env) {
    e.name != "" && !IsDigit(e.name[0]) && forall c :: c in e.name ==> IsNameChar(c)
  }

  predicate IsDigit(c: char) { '0' <= c <= '9' }

  predicate IsNameChar(c: char) { 'A' <= c <= 'Z' || 'a' <= c <= 'z' || IsDigit(c) || c == '_' }

  // ---------------------------------------------------------------- writing

  function Escape(c: char): string { if c == '\'' then "'\\''" else [c] }

  function Body(s: string): string {
    if s == "" then "" else Escape(s[0]) + Body(s[1..])
  }

  function Quoted(s: string): string { "'" + Body(s) + "'" }

  function Export(e: Env): string { "export " + e.name + "=" + Quoted(e.val) + "; " }

  function Exports(env: seq<Env>): string {
    if env == [] then "" else Export(env[0]) + Exports(env[1..])
  }

  function Script(env: seq<Env>, cmd: string): string { "( " + Exports(env) + cmd + " )" }

  /** The script with its two redirections, as it is given to system(). */
  function FullCommand(env: seq<Env>, cmd: string, outf: string, errf: string): string {
    Script(env, cmd) + " > " + Quoted(outf) + " 2> " + Quoted(errf)
  }

  lemma {:induction false} BodySnoc(s: string, c: char)
    ensures Body(s + [c]) == Body(s) + Escape(c)
  {
    if s == "" {
      assert [c][1..] == "";
      assert Body([c]) == Escape(c) + "" == "" + Escape(c);
    } else {
      assert (s + [c])[1..] == s[1..] + [c];
      BodySnoc(s[1..], c);
      Assoc(Escape(s[0]), Body(s[1..]), Escape(c));
    }
  }

  lemma {:induction false} ExportsSnoc(env: seq<Env>, e: Env)
    ensures Exports(env + [e]) == Exports(env) + Export(e)
  {
    if env == [] {
      assert [e][1..] == [];
      assert Export(e) + "" == "" + Export(e);
    } else {
      assert (env + [e])[1..] == env[1..] + [e];
      ExportsSnoc(env[1..], e);
      Assoc(Export(env[0]), Exports(env[1..]), Export(e));
    }
  }

  lemma {:induction false} BodyNulFree(s: string)
    requires NulFree(s)
    ensures NulFree(Body(s))
  {
    if s != "" { BodyNulFree(s[1..]); }
  }

  // ---------------------------------------------------------------- reading

  datatype Quote = Bare | Single | Double

  predicate Delimiter(c: char) { c in " \t\n|&;<>()" }

  /** What a bare word would have expanded, or taken for a comment. */
  predicate Expands(c: char) { c in "$`*?[#~" }

  /**
    Read one word: its text after quote removal and what follows it. None if a quote is
    never closed, or if an expansion would be needed.
  */
  function Word(s: string, q: Quote, acc: string): Option<(string, string)>
    decreases |s|
  {
    if s == "" then
      if q.Bare? then Some((acc, "")) else None
    else match q
      case Single =>
        if s[0] == '\'' then Word(s[1..], Bare, acc) else Word(s[1..], Single, acc + [s[0]])
      case Double =>
        if s[0] == '"' then Word(s[1..], Bare, acc)
        else if s[0] == '$' || s[0] == '`' then None
        else if s[0] == '\\' && |s| > 1 && s[1] == '\n' then Word(s[2..], Double, acc)
        else if s[0] == '\\' && |s| > 1 && s[1] in "$`\"\\" then Word(s[2..], Double, acc + [s[1]])
        else Word(s[1..], Double, acc + [s[0]])
      case Bare =>
        if Delimiter(s[0]) then Some((acc, s))
        else if s[0] == '\'' then Word(s[1..], Single, acc)
        else if s[0] == '"' then Word(s[1..], Double, acc)
        else if s[0] == '\\' then
          if |s| == 1 then None
          else if s[1] == '\n' then Word(s[2..], Bare, acc)
          else Word(s[2..], Bare, acc + [s[1]])
        else if Expands(s[0]) then None
        else Word(s[1..], Bare, acc + [s[0]])
  }

  lemma EscapedQuoteReads(rest: string, acc: string)
    ensures Word("'\\''" + rest, Single, acc) == Word(rest, Single, acc + ['\''])
  {
    var s := "'\\''" + rest;
    assert s[1..] == "\\''" + rest;
    assert s[1..][2..] == "'" + rest;
    assert ("'" + rest)[1..] == rest;
    assert Word(s, Single, acc) == Word(s[1..], Bare, acc) == Word("'" + rest, Bare, acc + ['\'']);
  }

  lemma {:induction false} BodyReads(t: string, rest: string, acc: string)
    ensures Word(Body(t) + ("'" + rest), Single, acc) == Word(rest, Bare, acc + t)
    decreases |t|
  {
    if t == "" {
      assert "" + ("'" + rest) == "'" + rest && ("'" + rest)[1..] == rest;
      assert acc + t == acc;
    } else {
      var tail := Body(t[1..]) + ("'" + rest);
      Assoc(Escape(t[0]), Body(t[1..]), "'" + rest);
      BodyReads(t[1..], rest, acc + [t[0]]);
      Assoc(acc, [t[0]], t[1..]);
      assert [t[0]] + t[1..] == t;
      if t[0] == '\'' {
        EscapedQuoteReads(tail, acc);
      } else {
        assert ([t[0]] + tail)[1..] == tail;
      }
    }
  }

  /** In the middle of a word a quoted string stands for itself, whatever it holds. */
  lemma QuotedReads(t: string, rest: string, acc: string)
    ensures Word(Quoted(t) + rest, Bare, acc) == Word(rest, Bare, acc + t)
  {
    var s := Quoted(t) + rest;
    assert s == "'" + (Body(t) + ("'" + rest));
    assert s[1..] == Body(t) + ("'" + rest);
    BodyReads(t, rest, acc);
  }

  /** Unquoting undoes quoting: the quoted string is one word, and that word is the string. */
  lemma QuotedIsOneWord(t: string, rest: string)
    requires rest == "" || Delimiter(rest[0])
    ensures Word(Quoted(t) + rest, Bare, "") == Some((t, rest))
  {
    QuotedReads(t, rest, "");
    assert "" + t == t;
  }

  lemma {:induction false} NameReads(name: string, rest: string, acc: string)
    requires forall c :: c in name ==> IsNameChar(c) || c == '='
    ensures Word(name + rest, Bare, acc) == Word(rest, Bare, acc + name)
    decreases |name|
  {
    if name == "" {
      assert name + rest == rest && acc + name == acc;
    } else {
      assert name[0] in name;
      assert (name + rest)[1..] == name[1..] + rest;
      NameReads(name[1..], rest, acc + [name[0]]);
      Assoc(acc, [name[0]], name[1..]);
      assert [name[0]] + name[1..] == name;
    }
  }

  /** A Name, by character codes: digits, upper-case letters, underscore, lower-case letters, and no digit first. */
  predicate IsName(n: string) {
    n != "" && !(48 <= n[0] as int <= 57)
    && forall i :: 0 <= i < |n| ==> var k := n[i] as int; 48 <= k <= 57 || 65 <= k <= 90 || k == 95 || 97 <= k <= 122
  }

  /** The name and value of an assignment word. */
  function Assignment(w: string, name: string): Option<Env>
    decreases |w|
  {
    if w == "" then None
    else if w[0] == '=' then if IsName(name) then Some(Env(name, w[1..])) else None
    else Assignment(w[1..], name + [w[0]])
  }

  /** The session takes exactly the names the shell takes. */
  lemma NamesAgree(e: Env)
    ensures EnvOk(e) <==> IsName(e.name)
  {
    if EnvOk(e) {
      forall i | 0 <= i < |e.name| ensures IsNameChar(e.name[i]) { assert e.name[i] in e.name; }
    }
  }

  lemma {:induction false} AssignmentReads(name: string, val: string, acc: string)
    requires '=' !in name && IsName(acc + name)
    ensures Assignment(name + ("=" + val), acc) == Some(Env(acc + name, val))
    decreases |name|
  {
    var w := name + ("=" + val);
    if name == "" {
      assert w == "=" + val && w[1..] == val && acc + name == acc;
    } else {
      assert w[1..] == name[1..] + ("=" + val);
      Assoc(acc, [name[0]], name[1..]);
      assert [name[0]] + name[1..] == name;
      AssignmentReads(name[1..], val, acc + [name[0]]);
    }
  }

  /** Read `n` export commands, giving the variables they set and the rest of the text. */
  function ReadExports(s: string, n: nat): Option<(seq<Env>, string)>
    decreases n
  {
    if n == 0 then Some(([], s))
    else if !("export " <= s) then None
    else
      var (w, after) :- Word(s[7..], Bare, "");
      var e :- Assignment(w, "");
      if !("; " <= after) then None
      else
        var (es, rest) :- ReadExports(after[2..], n - 1);
        Some(([e] + es, rest))
  }

  lemma ExportReads(e: Env, rest: string)
    requires EnvOk(e)
    ensures "export " <= Export(e) + rest
    ensures Word((Export(e) + rest)[7..], Bare, "") == Some((e.name + ("=" + e.val), "; " + rest))
    ensures Assignment(e.name + ("=" + e.val), "") == Some(e)
  {
    var s, tail := Export(e) + rest, Quoted(e.val) + ("; " + rest);
    var lhs := e.name + "=";
    assert s == "export " + (lhs + tail);
    assert s[7..] == lhs + tail;
    ExportedWord(e, rest);
    assert '=' !in e.name;
    NamesAgree(e);
    assert "" + e.name == e.name;
    AssignmentReads(e.name, e.val, "");
  }

  lemma ExportedWord(e: Env, rest: string)
    requires EnvOk(e)
    ensures Word(e.name + "=" + (Quoted(e.val) + ("; " + rest)), Bare, "") == Some((e.name + ("=" + e.val), "; " + rest))
  {
    var lhs := e.name + "=";
    NameReads(lhs, Quoted(e.val) + ("; " + rest), "");
    QuotedReads(e.val, "; " + rest, "" + lhs);
    assert "" + lhs + e.val == e.name + ("=" + e.val);
  }

  /** The shell sets exactly the job's variables, in order, and then comes to the command. */
  lemma {:induction false} ExportsRead(env: seq<Env>, rest: string)
    requires forall e :: e in env ==> EnvOk(e)
    ensures ReadExports(Exports(env) + rest, |env|) == Some((env, rest))
    decreases |env|
  {
    if env == [] {
      assert "" + rest == rest;
    } else {
      var tail := Exports(env[1..]) + rest;
      Assoc(Export(env[0]), Exports(env[1..]), rest);
      ExportReads(env[0], tail);
      assert ("; " + tail)[2..] == tail;
      ExportsRead(env[1..], rest);
      assert [env[0]] + env[1..] == env;
    }
  }

  lemma ScriptReads(env: seq<Env>, cmd: string)
    requires forall e :: e in env ==> EnvOk(e)
    ensures "( " <= Script(env, cmd) && ReadExports(Script(env, cmd)[2..], |env|) == Some((env, cmd + " )"))
  {
    var open, close := "( ", " )";
    var body := Exports(env) + (cmd + close);
    Assoc(open, Exports(env), cmd);
    Assoc(open, Exports(env) + cmd, close);
    Assoc(Exports(env), cmd, close);
    ExportsRead(env, cmd + close);
    assert Script(env, cmd) == open + body;
    assert (open + body)[2..] == body;
  }

  /** The redirections name exactly the two capture files. */
  lemma RedirectionsRead(env: seq<Env>, cmd: string, outf: string, errf: string)
    ensures var tail := " 2> " + Quoted(errf);
      && FullCommand(env, cmd, outf, errf) == Script(env, cmd) + " > " + (Quoted(outf) + tail)
      && Word(Quoted(outf) + tail, Bare, "") == Some((outf, tail))
      && Word(tail[4..], Bare, "") == Some((errf, ""))
  {
    var tail := " 2> " + Quoted(errf);
    QuotedIsOneWord(outf, tail);
    QuotedIsOneWord(errf, "");
    assert tail[4..] == Quoted(errf) + "";
    assert FullCommand(env, cmd, outf, errf) == Script(env, cmd) + " > " + (Quoted(outf) + tail);
  }

  // ---------------------------------------------------------------- in the buffer

  /** One character of the word, escaped; room must be left for a NUL after it. */
  method CatEscaped(dst: array<char>, d: nat, c: char, ghost done: string) returns (ok: bool)
    requires d < dst.Length && dst[..d] == done
    modifies dst
    ensures ok <==> d + |Escape(c)| < dst.Length
    ensures ok ==> dst[..d + |Escape(c)|] == done + Escape(c)
  {
    if c == '\'' {
      if d + 4 >= dst.Length { return false; }
      dst[d], dst[d + 1], dst[d + 2], dst[d + 3] := '\'', '\\', '\'', '\'';
    } else {
      if d + 1 >= dst.Length { return false; }
      dst[d] := c;
    }
    return true;
  }

  /** Append a quoted word, or fail when the whole of it does not fit. */
  method CatQuoted(dst: array<char>, src: string, ghost s: string) returns (ok: bool)
    requires Holds(dst, s) && NulFree(src)
    modifies dst
    ensures ok <==> |s| + |Quoted(src)| < dst.Length
    ensures ok ==> Holds(dst, s + Quoted(src))
  {
    var size := dst.Length;
    var d := StrLen(dst, s);
    if d + 2 >= size { return false; }
    dst[d] := '\'';
    d := d + 1;
    ghost var done := s + "'";
    assert dst[..d] == done;
    var i := 0;
    while i < |src|
      invariant i <= |src| && d == |done| < size && dst[..d] == done && done == s + "'" + Body(src[..i])
    {
      BodyStep(src, i, s + "'");
      var ok1 := CatEscaped(dst, d, src[i], done);
      if !ok1 { return false; }
      done := done + Escape(src[i]);
      d := d + |Escape(src[i])|;
      i := i + 1;
    }
    assert src[..i] == src;
    ok := CatEnd(dst, d, done);
    QuotedIs(s, src);
    BodyNulFree(src);
  }

  /** The closing quote and the end of the string. */
  method CatEnd(dst: array<char>, d: nat, ghost done: string) returns (ok: bool)
    requires d < dst.Length && dst[..d] == done
    modifies dst
    ensures ok <==> d + 1 < dst.Length
    ensures ok ==> dst[..d + 1] == done + "'" && dst[d + 1] == NUL
  {
    if d + 1 >= dst.Length { return false; }
    dst[d] := '\'';
    dst[d + 1] := NUL;
    return true;
  }

  lemma QuotedIs(s: string, t: string)
    ensures s + Quoted(t) == s + "'" + Body(t) + "'"
  {
  }

  lemma BodyStep(t: string, i: nat, before: string)
    requires i < |t|
    ensures before + Body(t[..i + 1]) == before + Body(t[..i]) + Escape(t[i])
    ensures |Body(t[..i])| + |Escape(t[i])| == |Body(t[..i + 1])| <= |Body(t)|
  {
    BodySnoc(t[..i], t[i]);
    assert t[..i + 1] == t[..i] + [t[i]];
    BodyWhole(t, i + 1);
    Assoc(before, Body(t[..i]), Escape(t[i]));
  }

  lemma {:induction false} BodyWhole(s: string, i: nat)
    requires i <= |s|
    ensures |Body(s[..i])| <= |Body(s)|
    decreases |s| - i
  {
    if i < |s| {
      BodySnoc(s[..i], s[i]);
      assert s[..i + 1] == s[..i] + [s[i]];
      BodyWhole(s, i + 1);
    } else {
      assert s[..i] == s;
    }
  }

  /** An append whose result nobody looks at. */
  method CatFit(dst: array<char>, src: string, ghost t: string)
    requires dst.Length > 0 && Holds(dst, Fit(t, dst.Length)) && NulFree(src)
    modifies dst
    ensures Holds(dst, Fit(t + src, dst.Length))
  {
    FitAppend(t, src, dst.Length);
    var _ := StrLcat(dst, src, Fit(t, dst.Length));
  }

  method CatName(dst: array<char>, name: string, ghost t: string)
    requires dst.Length > 0 && Holds(dst, Fit(t, dst.Length)) && NulFree(name)
    modifies dst
    ensures Holds(dst, Fit(t + "export " + name + "=", dst.Length))
  {
    CatFit(dst, "export ", t);
    CatFit(dst, name, t + "export ");
    CatFit(dst, "=", t + "export " + name);
  }

  /** One export, as the loop over the variables writes it; only the quoting is checked. */
  method AddExport(dst: array<char>, e: Env, ghost t: string) returns (ok: bool)
    requires dst.Length > 0 && Holds(dst, Fit(t, dst.Length)) && NulFree(e.name) && NulFree(e.val)
    modifies dst
    ensures ok <==> |t + "export " + e.name + "=" + Quoted(e.val)| < dst.Length
    ensures ok ==> Holds(dst, Fit(t + Export(e), dst.Length))
  {
    CatName(dst, e.name, t);
    ghost var u, size := t + "export " + e.name + "=", dst.Length;
    ok := CatQuoted(dst, e.val, Fit(u, size));
    if ok {
      assert Fit(u, size) == u;
      var _ := StrLcat(dst, "; ", u + Quoted(e.val));
      assert u + Quoted(e.val) + "; " == t + Export(e);
    }
  }

  /**
    The script for a job, built by saturating appends of which only some are checked:
    success means the exact, whole script, and failure that it does not fit.
  */
  method BuildScript(dst: array<char>, cmd: string, env: seq<Env>) returns (ok: bool)
    requires dst.Length > 0 && NulFree(cmd) && forall e :: e in env ==> NulFree(e.name) && NulFree(e.val)
    modifies dst
    ensures ok <==> |Script(env, cmd)| < dst.Length
    ensures ok ==> Holds(dst, Script(env, cmd))
  {
    var size := dst.Length;
    dst[0] := NUL;
    assert dst[..0] == "";
    var _ := StrLcat(dst, "( ", "");
    ghost var t := "( ";
    assert "" + t == t && t + Exports([]) == t;
    for i := 0 to |env|
      invariant Holds(dst, Fit(t, size)) && t == "( " + Exports(env[..i])
    {
      assert env[i] in env;
      ExportsSnoc(env[..i], env[i]);
      assert env[..i + 1] == env[..i] + [env[i]];
      ScriptLength(env, i + 1, cmd);
      Assoc("( ", Exports(env[..i]), Export(env[i]));
      ok := AddExport(dst, env[i], t);
      if !ok { return; }
      t := t + Export(env[i]);
    }
    assert env[..|env|] == env;
    var n := StrLcat(dst, cmd, Fit(t, size));
    FitAppend(t, cmd, size);
    if n >= size { return false; }
    n := StrLcat(dst, " )", Fit(t + cmd, size));
    return n < size;
  }

  lemma {:induction false} ScriptLength(env: seq<Env>, i: nat, cmd: string)
    requires i <= |env|
    ensures |"( " + Exports(env[..i])| <= |Script(env, cmd)|
    decreases |env| - i
  {
    if i < |env| {
      ExportsSnoc(env[..i], env[i]);
      assert env[..i + 1] == env[..i] + [env[i]];
      ScriptLength(env, i + 1, cmd);
    } else {
      assert env[..i] == env;
    }
  }

  /** The whole command line with its redirections, or a refusal when it does not fit. */
  method CommandLine(dst: array<char>, cmd: string, env: seq<Env>, outf: string, errf: string) returns (ok: bool)
    requires dst.Length > 0 && NulFree(cmd) && NulFree(outf) && NulFree(errf) && forall e :: e in env ==> NulFree(e.name) && NulFree(e.val)
    modifies dst
    ensures ok <==> |FullCommand(env, cmd, outf, errf)| < dst.Length - 1
    ensures ok ==> Holds(dst, FullCommand(env, cmd, outf, errf))
  {
    var size := dst.Length;
    ok := BuildScript(dst, cmd, env);
    if !ok { return; }
    ghost var a := Script(env, cmd);
    var _ := StrLcat(dst, " > ", a);
    ok := CatQuoted(dst, outf, Fit(a + " > ", size));
    if !ok { return; }
    ghost var b := a + " > " + Quoted(outf);
    var _ := StrLcat(dst, " 2> ", b);
    ok := CatQuoted(dst, errf, Fit(b + " 2> ", size));
    if !ok { return; }
    var n := StrLen(dst, b + " 2> " + Quoted(errf));
    return n < size - 1;
  }
}
