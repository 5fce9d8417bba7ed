/**
  One session of the daemon, on a build without supervised execution: greeting, AUTH, then
  commands until the session ends. `Respond` is one command as a function of the session
  and of the bytes still to come; `Daemon` runs it on a channel. What the host does with a
  directory, a file name or a command line is given by the `Host`.
*/
module Session {
  import opened Bytes
  import opened Decimal
  import opened Lineio
  import opened Shell
  import Async
  import Output
  import Transfer

  const ENV_MAX := 32
  const ENVN_MAX := 64
  const ENVV_MAX := 192

  type Store = map<string, string>      // files by full name

  datatype Host = Host(
    token: string,
    greeting: string,
    cap: nat,                                         // output and upload cap, 0 for none
    disk: nat,                                        // space for one upload
    enter: (string, string) -> Option<string>,        // chdir: from a directory, to a directory
    at: (string, string) -> string,                   // full name of a path in a directory
    creatable: string -> bool,
    run: (string, seq<Env>, string, Store) -> (Async.Exec, Store))

  /** A job accepted, with its environment. */
  datatype Job = Job(pending: bool, id: int, cmd: string, env: seq<Env>)

  datatype Sess = Sess(
    authed: bool, env: seq<Env>, dir: string, store: Store, job: Job, res: Async.Res, capture: Async.Files, counter: int)

  // ---------------------------------------------------------------- one command

  datatype Command = Command(verb: string, arg: Option<string>)

  function Find(s: string, c: char): (n: nat)
    ensures n <= |s| && c !in s[..n] && (n < |s| ==> s[n] == c)
  {
    if s == "" || s[0] == c then 0 else 1 + Find(s[1..], c)
  }

  function Split(line: string): Command {
    var n := Find(line, ' ');
    Command(line[..n], if n < |line| then Some(line[n + 1..]) else None)
  }

  datatype Verb = PING | STAT | CWD | ENV | RUN | RUNA | RESULT | RUNI | PUT | GET | QUIT | UNKNOWN

  function VerbOf(s: string): Verb {
    if s == "PING" then PING else if s == "STAT" then STAT else if s == "CWD" then CWD else if s == "ENV" then ENV
    else if s == "RUN" then RUN else if s == "RUNA" then RUNA else if s == "RESULT" then RESULT else if s == "RUNI" then RUNI
    else if s == "PUT" then PUT else if s == "GET" then GET else if s == "QUIT" then QUIT else UNKNOWN
  }

  /** What a command leads to: the answer, the session after it, the bytes not taken, and whether the session ends. */
  datatype Turn = Turn(out: string, sess: Sess, rest: string, over: bool)

  function Say(line: string, s: Sess, rest: string): Turn { Turn(line + "\n", s, rest, false) }

  function Bye(line: string, s: Sess, rest: string): Turn { Turn(line + "\n", s, rest, true) }

  function HandleAuth(h: Host, s: Sess, c: Command, rest: string): Turn {
    if c.verb == "QUIT" then Bye("OK", s, rest)
    else if c != Command("AUTH", Some(h.token)) then Bye("ERR 401 auth failed", s, rest)
    else Say("OK", s.(authed := true), rest)
  }

  function IndexOf(env: seq<Env>, name: string): (i: nat)
    ensures i <= |env| && (i < |env| ==> env[i].name == name) && forall j :: 0 <= j < i ==> env[j].name != name
  {
    if env == [] || env[0].name == name then 0 else 1 + IndexOf(env[1..], name)
  }

  /** The variable table after ENV, and the reply. */
  function SetEnv(env: seq<Env>, arg: Option<string>): (seq<Env>, string) {
    if arg.None? || Find(arg.value, '=') == |arg.value| then (env, "ERR 400 bad env")
    else
      var n := Find(arg.value, '=');
      var e := Env(arg.value[..n], arg.value[n + 1..]);
      var i := IndexOf(env, e.name);
      if !EnvOk(e) || |e.name| >= ENVN_MAX || |e.val| >= ENVV_MAX then (env, "ERR 431 env too long")
      else if i < |env| then (env[i := e], "OK")
      else if |env| >= ENV_MAX then (env, "ERR 431 too many env")
      else (env + [e], "OK")
  }

  function Stat(s: Sess): string {
    if s.res.valid then "OK result " + Print(s.res.id) else "OK idle"
  }

  /** Capture files and exit code as frames. */
  function Captured(h: Host, chunk: nat, files: Async.Files, code: int): string
    requires 1 <= chunk
  {
    Output.Wire(Output.ResultPieces(files.out, files.err, chunk, h.cap)) + Output.ExitLine(code)
  }

  function Run(h: Host, chunk: nat, s: Sess, cmd: string, rest: string): Turn
    requires 1 <= chunk
  {
    var (exec, store) := h.run(s.dir, s.env, cmd, s.store);
    var s1 := s.(res := s.res.(valid := false), store := store);
    match exec
    case ExecFailed(_) => Say("ERR 500 exec failed", s1, rest)
    case Exited(code, files) => Turn(Captured(h, chunk, files, code), s1, rest, false)
  }

  function Runa(s: Sess, cmd: string, rest: string): Turn {
    var id := Async.NextId(s.counter);
    Bye("OK " + Print(id), s.(res := s.res.(valid := false), counter := id, job := Job(true, id, cmd, s.env)), rest)
  }

  function Result(h: Host, chunk: nat, s: Sess, arg: Option<string>, rest: string): Turn
    requires 1 <= chunk
  {
    var id := if arg.None? then -1 else Atol(arg.value);
    if !s.res.valid || s.res.id != id then Say("ERR 404 no such result", s, rest)
    else Turn(Captured(h, chunk, s.capture, s.res.code), s, rest, false)
  }

  function Put(h: Host, s: Sess, path: string, rest: string): Turn {
    if path == "" then Say("ERR 400 missing path", s, rest)
    else if !h.creatable(h.at(s.dir, path)) then Say("ERR 404 cannot create", s, rest)
    else
      var r := Transfer.Receive(rest, Transfer.HDR_MAX, h.cap, h.disk, "");
      var (reply, on, stored) := Transfer.PutVerdict(r);
      Turn("OK\n" + (if reply == "" then "" else reply + "\n"), s.(store := Place(s.store, h.at(s.dir, path), stored)), r.rest, !on)
  }

  function Place(store: Store, name: string, file: Option<string>): Store {
    if file.Some? then store[name := file.value] else store - {name}
  }

  function Get(h: Host, chunk: nat, s: Sess, path: string, rest: string): Turn
    requires 1 <= chunk
  {
    var name := h.at(s.dir, path);
    if path == "" then Say("ERR 400 missing path", s, rest)
    else if name !in s.store then Say("ERR 404 no such file", s, rest)
    else Turn("OK\n" + Transfer.FileWire(s.store[name], 0, chunk), s, rest, false)
  }

  function Default(arg: Option<string>): string { if arg.Some? then arg.value else "" }

  /** RUN and RUNA want a command line. */
  function JobCommand(h: Host, chunk: nat, s: Sess, v: Verb, arg: Option<string>, rest: string): Turn
    requires 1 <= chunk
  {
    if arg.None? then Say("ERR 400 missing command", s, rest)
    else if v.RUN? then Run(h, chunk, s, arg.value, rest)
    else Runa(s, arg.value, rest)
  }

  function Cwd(h: Host, s: Sess, arg: Option<string>, rest: string): Turn {
    if arg.None? || h.enter(s.dir, arg.value).None? then Say("ERR 404 no such directory", s, rest)
    else Say("OK", s.(dir := h.enter(s.dir, arg.value).value), rest)
  }

  function Respond(h: Host, chunk: nat, s: Sess, line: string, rest: string): Turn
    requires 1 <= chunk
  {
    var c := Split(line);
    if !s.authed then HandleAuth(h, s, c, rest) else Act(h, chunk, s, VerbOf(c.verb), c.arg, rest)
  }

  function Act(h: Host, chunk: nat, s: Sess, v: Verb, arg: Option<string>, rest: string): Turn
    requires 1 <= chunk
  {
    match v
    case PING => Say("OK", s, rest)
    case STAT => Say(Stat(s), s, rest)
    case CWD => Cwd(h, s, arg, rest)
    case ENV => Say(SetEnv(s.env, arg).1, s.(env := SetEnv(s.env, arg).0), rest)
    case RUN | RUNA => JobCommand(h, chunk, s, v, arg, rest)
    case RESULT => Result(h, chunk, s, arg, rest)
    case RUNI => Say("ERR 501 not supported", s, rest)
    case PUT => Put(h, s, Default(arg), rest)
    case GET => Get(h, chunk, s, Default(arg), rest)
    case QUIT => Bye("OK", s, rest)
    case UNKNOWN => Say("ERR 500 unknown command", s, rest)
  }

  // ---------------------------------------------------------------- a whole session

  datatype Served = Served(out: string, sess: Sess, rest: string)

  lemma RespondShrinks(h: Host, chunk: nat, s: Sess, line: string, rest: string)
    requires 1 <= chunk
    ensures |Respond(h, chunk, s, line, rest).rest| <= |rest|
  {
    var c := Split(line);
    if s.authed { ActShrinks(h, chunk, s, VerbOf(c.verb), c.arg, rest); }
  }

  lemma ActShrinks(h: Host, chunk: nat, s: Sess, v: Verb, arg: Option<string>, rest: string)
    requires 1 <= chunk
    ensures |Act(h, chunk, s, v, arg, rest).rest| <= |rest|
  {
    if v.PUT? { Transfer.ReceiveShrinks(rest, Transfer.HDR_MAX, h.cap, h.disk, ""); }
  }

  /** The commands of a byte stream, up to the one that ends the session or the end of the stream. */
  function Serve(h: Host, chunk: nat, s: Sess, input: string): Served
    requires 1 <= chunk
    decreases |input|
  {
    var (line, rest) := ReadLine(input, LINE_MAX, "");
    match line
    case Eio => Served("", s, rest)
    case TooLong => Served("ERR 400 protocol violation\n", s, rest)
    case Got(l) =>
      RespondShrinks(h, chunk, s, l, rest);
      var t := Respond(h, chunk, s, l, rest);
      if t.over then Served(t.out, t.sess, t.rest)
      else
        var more := Serve(h, chunk, t.sess, t.rest);
        more.(out := t.out + more.out)
  }

  // ---------------------------------------------------------------- in place

  class Daemon {
    const h: Host
    var authed: bool
    var env: seq<Env>
    var dir: string
    var store: Store
    var job: Job
    var res: Async.Res
    var capture: Async.Files
    var counter: int

    ghost function Abs(): Sess
      reads this
    {
      Sess(authed, env, dir, store, job, res, capture, counter)
    }

    constructor (host: Host, s: Sess)
      ensures h == host && Abs() == s
    {
      h, authed, env, dir, store, job, res, capture, counter := host, s.authed, s.env, s.dir, s.store, s.job, s.res, s.capture, s.counter;
    }

    /** What has been done when the channel still takes bytes: the answer sent, the rest left, the session moved on. */
    ghost predicate Did(ch: Chan, sent: string, t: Turn, over: bool)
      reads this, ch
    {
      ch.outgoing == sent + t.out && ch.incoming == t.rest && Abs() == t.sess && over == t.over
    }

    /** Whatever the channel takes: the session goes on only from where the command leads; when it is over the command is done, or its first answer did not get through. */
    ghost predicate Moved(ch: Chan, t: Turn, undone: Sess, over: bool)
      reads this, ch
    {
      (!over ==> ch.incoming == t.rest && Abs() == t.sess && !t.over) && Abs() in {t.sess, undone}
    }

    /** Answer with a line; the session ends if that fails. */
    method Tell(ch: Chan, line: string) returns (over: bool)
      modifies ch
      ensures ch.room <= old(ch.room) && ch.incoming == old(ch.incoming)
      ensures ch.room > 0 ==> !over && ch.outgoing == old(ch.outgoing) + (line + "\n")
    {
      var ok := ch.PutLine(line);
      return !ok;
    }

    method Auth(ch: Chan, c: Command) returns (over: bool)
      modifies this, ch
      ensures ch.room <= old(ch.room) && |ch.incoming| <= |old(ch.incoming)|
      ensures ch.room > 0 ==> Did(ch, old(ch.outgoing), HandleAuth(h, old(Abs()), c, old(ch.incoming)), over)
      ensures Moved(ch, HandleAuth(h, old(Abs()), c, old(ch.incoming)), old(Abs()), over)
    {
      if c.verb == "QUIT" {
        var _ := Tell(ch, "OK");
        return true;
      }
      if c.verb != "AUTH" || c.arg != Some(h.token) {
        var _ := Tell(ch, "ERR 401 auth failed");
        return true;
      }
      over := Tell(ch, "OK");
      if !over { authed := true; }
    }

    /** The variable table: overwrite the entry of that name, or append. */
    method EnvCommand(arg: Option<string>) returns (reply: string)
      modifies `env
      ensures (env, reply) == SetEnv(old(env), arg)
    {
      if arg.None? { return "ERR 400 bad env"; }
      var n := Find(arg.value, '=');
      if n == |arg.value| { return "ERR 400 bad env"; }
      var e := Env(arg.value[..n], arg.value[n + 1..]);
      if !EnvOk(e) || |e.name| >= ENVN_MAX || |e.val| >= ENVV_MAX { return "ERR 431 env too long"; }
      var i := 0;
      while i < |env| && env[i].name != e.name
        invariant i <= |env| && IndexOf(env, e.name) == i + IndexOf(env[i..], e.name)
      {
        assert env[i..][1..] == env[i + 1..];
        i := i + 1;
      }
      if i == |env| {
        if |env| >= ENV_MAX { return "ERR 431 too many env"; }
        env := env + [e];
      } else {
        env := env[i := e];
      }
      return "OK";
    }

    method SendCapture(ch: Chan, files: Async.Files, code: int) returns (over: bool)
      modifies ch
      ensures ch.room <= old(ch.room) && ch.incoming == old(ch.incoming)
      ensures ch.room > 0 ==> !over && ch.outgoing == old(ch.outgoing) + Captured(h, ch.Chunk(), files, code)
    {
      var ok := Output.SendResult(ch, files.out, files.err, h.cap, code);
      return !ok;
    }

    method RunCommand(ch: Chan, cmd: string) returns (over: bool)
      modifies this, ch
      ensures ch.room <= old(ch.room) && |ch.incoming| <= |old(ch.incoming)|
      ensures ch.room > 0 ==> Did(ch, old(ch.outgoing), Run(h, ch.Chunk(), old(Abs()), cmd, old(ch.incoming)), over)
      ensures Moved(ch, Run(h, ch.Chunk(), old(Abs()), cmd, old(ch.incoming)), Run(h, ch.Chunk(), old(Abs()), cmd, old(ch.incoming)).sess, over)
    {
      res := res.(valid := false);
      var (exec, after) := h.run(dir, env, cmd, store);
      store := after;
      if exec.ExecFailed? {
        over := Tell(ch, "ERR 500 exec failed");
      } else {
        over := SendCapture(ch, exec.files, exec.code);
      }
    }

    method RunaCommand(ch: Chan, cmd: string) returns (over: bool)
      modifies this, ch
      ensures ch.room <= old(ch.room) && |ch.incoming| <= |old(ch.incoming)|
      ensures ch.room > 0 ==> Did(ch, old(ch.outgoing), Runa(old(Abs()), cmd, old(ch.incoming)), over)
      ensures Moved(ch, Runa(old(Abs()), cmd, old(ch.incoming)), Runa(old(Abs()), cmd, old(ch.incoming)).sess, over)
    {
      res := res.(valid := false);
      counter := if counter + 1 > Async.JOB_MAX then 1 else counter + 1;
      job := Job(true, counter, cmd, env);
      var _ := Tell(ch, "OK " + Print(job.id));
      return true;
    }

    method ResultCommand(ch: Chan, arg: Option<string>) returns (over: bool)
      modifies ch
      ensures ch.room <= old(ch.room) && |ch.incoming| <= |old(ch.incoming)|
      ensures ch.room > 0 ==> Did(ch, old(ch.outgoing), Result(h, ch.Chunk(), Abs(), arg, old(ch.incoming)), over)
      ensures Moved(ch, Result(h, ch.Chunk(), Abs(), arg, old(ch.incoming)), Result(h, ch.Chunk(), Abs(), arg, old(ch.incoming)).sess, over)
    {
      var id := if arg.None? then -1 else Atol(arg.value);
      if !res.valid || res.id != id {
        over := Tell(ch, "ERR 404 no such result");
      } else {
        over := SendCapture(ch, capture, res.code);
      }
    }

    method JobLine(ch: Chan, v: Verb, arg: Option<string>) returns (over: bool)
      modifies this, ch
      ensures ch.room <= old(ch.room) && |ch.incoming| <= |old(ch.incoming)|
      ensures ch.room > 0 ==> Did(ch, old(ch.outgoing), JobCommand(h, ch.Chunk(), old(Abs()), v, arg, old(ch.incoming)), over)
      ensures Moved(ch, JobCommand(h, ch.Chunk(), old(Abs()), v, arg, old(ch.incoming)), JobCommand(h, ch.Chunk(), old(Abs()), v, arg, old(ch.incoming)).sess, over)
    {
      if arg.None? {
        over := Tell(ch, "ERR 400 missing command");
      } else if v.RUN? {
        over := RunCommand(ch, arg.value);
      } else {
        over := RunaCommand(ch, arg.value);
      }
    }

    method CwdCommand(ch: Chan, arg: Option<string>) returns (over: bool)
      modifies this, ch
      ensures ch.room <= old(ch.room) && |ch.incoming| <= |old(ch.incoming)|
      ensures ch.room > 0 ==> Did(ch, old(ch.outgoing), Cwd(h, old(Abs()), arg, old(ch.incoming)), over)
      ensures Moved(ch, Cwd(h, old(Abs()), arg, old(ch.incoming)), Cwd(h, old(Abs()), arg, old(ch.incoming)).sess, over)
    {
      if arg.None? || h.enter(dir, arg.value).None? {
        over := Tell(ch, "ERR 404 no such directory");
      } else {
        dir := h.enter(dir, arg.value).value;
        over := Tell(ch, "OK");
      }
    }

    method PutCommand(ch: Chan, path: string) returns (over: bool)
      modifies this, ch
      ensures ch.room <= old(ch.room) && |ch.incoming| <= |old(ch.incoming)|
      ensures ch.room > 0 ==> Did(ch, old(ch.outgoing), Put(h, old(Abs()), path, old(ch.incoming)), over)
      ensures Moved(ch, Put(h, old(Abs()), path, old(ch.incoming)), HalfPut(h, old(Abs()), path), over)
    {
      var name := h.at(dir, path);
      var goesOn, file := Transfer.DoPut(ch, path, h.creatable(name), h.cap, h.disk);
      if path != "" && h.creatable(name) {
        store := Place(store, name, file);
      }
      return !goesOn;
    }

    method GetCommand(ch: Chan, path: string) returns (over: bool)
      modifies ch
      ensures ch.room <= old(ch.room) && |ch.incoming| <= |old(ch.incoming)|
      ensures ch.room > 0 ==> Did(ch, old(ch.outgoing), Get(h, ch.Chunk(), Abs(), path, old(ch.incoming)), over)
      ensures Moved(ch, Get(h, ch.Chunk(), Abs(), path, old(ch.incoming)), Get(h, ch.Chunk(), Abs(), path, old(ch.incoming)).sess, over)
    {
      var name := h.at(dir, path);
      var goesOn := Transfer.DoGet(ch, path, if name in store then Some(store[name]) else None);
      return !goesOn;
    }

    method Obey(ch: Chan, line: string) returns (over: bool)
      modifies this, ch
      ensures ch.room <= old(ch.room) && |ch.incoming| <= |old(ch.incoming)|
      ensures ch.room > 0 ==> Did(ch, old(ch.outgoing), Respond(h, ch.Chunk(), old(Abs()), line, old(ch.incoming)), over)
      ensures Moved(ch, Respond(h, ch.Chunk(), old(Abs()), line, old(ch.incoming)), Undone(h, old(Abs()), Split(line)), over)
    {
      var c := Split(line);
      if !authed {
        over := Auth(ch, c);
        return;
      }
      match VerbOf(c.verb)
      case PING => over := Tell(ch, "OK");
      case STAT => over := Tell(ch, if res.valid then "OK result " + Print(res.id) else "OK idle");
      case CWD => over := CwdCommand(ch, c.arg);
      case ENV =>
        var reply := EnvCommand(c.arg);
        over := Tell(ch, reply);
      case RUN => over := JobLine(ch, RUN, c.arg);
      case RUNA => over := JobLine(ch, RUNA, c.arg);
      case RESULT => over := ResultCommand(ch, c.arg);
      case RUNI => over := Tell(ch, "ERR 501 not supported");
      case PUT => over := PutCommand(ch, Default(c.arg));
      case GET => over := GetCommand(ch, Default(c.arg));
      case QUIT =>
        var _ := Tell(ch, "OK");
        over := true;
      case UNKNOWN => over := Tell(ch, "ERR 500 unknown command");
    }

    /** Between sessions: run the accepted job, if there is one; it ends as `exec` says and leaves the files as `after`. */
    method RunPendingJob(exec: Async.Exec, after: Store)
      modifies this
      ensures Abs() == AfterJob(old(Abs()), exec, after)
    {
      if !job.pending { return; }
      job := job.(pending := false);
      capture := exec.files;
      store := after;
      if exec.ExecFailed? {
        res := res.(valid := false);
        return;
      }
      res := Async.Res(true, job.id, exec.code);
    }

    /** One command of the loop, or the end of the input; `out` is the answer. */
    method Step(ch: Chan) returns (over: bool, ghost out: string)
      modifies this, ch
      ensures ch.room <= old(ch.room) && (!over ==> |ch.incoming| < |old(ch.incoming)|)
      ensures ch.room > 0 ==> ch.outgoing == old(ch.outgoing) + out
      ensures ch.room > 0 ==>
        var all := Serve(h, ch.Chunk(), old(Abs()), old(ch.incoming));
        if over then all == Served(out, Abs(), ch.incoming) else Along(all, out, Serve(h, ch.Chunk(), Abs(), ch.incoming))
      ensures var g := Onward(h, ch.Chunk(), Stage(old(Abs()), old(ch.incoming), false));
        && (!over || ch.room > 0 ==> g == Stage(Abs(), ch.incoming, over))
        && Abs() in {g.sess, Halted(h, Stage(old(Abs()), old(ch.incoming), false))}
    {
      ghost var s, before := Abs(), ch.incoming;
      var r := ch.GetLine(LINE_MAX);
      if r.TooLong? {
        var _ := Tell(ch, "ERR 400 protocol violation");
        return true, "ERR 400 protocol violation\n";
      }
      if r.Eio? {
        return true, "";
      }
      ghost var t := Respond(h, ch.Chunk(), s, r.text, ch.incoming);
      RespondShrinks(h, ch.Chunk(), s, r.text, ch.incoming);
      over := Obey(ch, r.text);
      out := t.out;
    }

    /**
      The command loop: `n` commands are obeyed, and `cut` tells whether the session ended
      with the answer to one more not getting through.
    */
    method Commands(ch: Chan) returns (ghost n: nat, ghost cut: bool, ghost done: string)
      modifies this, ch
      ensures ch.room <= old(ch.room)
      ensures ch.room > 0 ==>
        ch.outgoing == old(ch.outgoing) + done && Serve(h, ch.Chunk(), old(Abs()), old(ch.incoming)) == Served(done, Abs(), ch.incoming)
      ensures var g := Obeyed(h, ch.Chunk(), Stage(old(Abs()), old(ch.incoming), false), n);
        && Abs() == Left(h, g, cut)
        && (ch.room > 0 ==> !cut && g == Stage(Abs(), ch.incoming, true))
    {
      n, cut, done := 0, false, "";
      ghost var start, all, g := ch.outgoing, Serve(h, ch.Chunk(), Abs(), ch.incoming), Stage(Abs(), ch.incoming, false);
      ghost var more := all;
      assert start + "" == start && "" + all.out == all.out;
      while true
        invariant ch.room <= old(ch.room)
        invariant ch.room > 0 ==> Along(all, done, more) && more == Serve(h, ch.Chunk(), Abs(), ch.incoming) && ch.outgoing == start + done
        invariant Obeyed(h, ch.Chunk(), g, n) == Stage(Abs(), ch.incoming, false)
        decreases |ch.incoming|
      {
        ghost var out;
        var over;
        over, out := Step(ch);
        Assoc(start, done, out);
        ghost var was, next := done, Serve(h, ch.Chunk(), Abs(), ch.incoming);
        done := done + out;
        if over {
          cut := Abs() != Obeyed(h, ch.Chunk(), g, n + 1).sess;
          n := if cut then n else n + 1;
          return;
        }
        n := n + 1;
        if ch.room > 0 { AlongTwice(all, was, more, out, next); }
        more := next;
      }
    }

    /** A session from its greeting on; nothing carries over from the last one but jobs, results, files and directory. */
    method SessionRun(ch: Chan) returns (ghost n: nat, ghost cut: bool)
      modifies this, ch
      ensures ch.room > 0 ==>
        var all := Serve(h, ch.Chunk(), Fresh(old(Abs())), old(ch.incoming));
        ch.outgoing == old(ch.outgoing) + (h.greeting + "\n") + all.out && Abs() == all.sess && ch.incoming == all.rest
      ensures var g := Obeyed(h, ch.Chunk(), Stage(Fresh(old(Abs())), old(ch.incoming), false), n);
        && Abs() == Left(h, g, cut)
        && (ch.room > 0 ==> !cut && g == Stage(Abs(), ch.incoming, true))
    {
      n, cut := 0, false;
      job := job.(pending := false);
      env, authed := [], false;
      var over := Tell(ch, h.greeting);
      if over { return; }
      ghost var out;
      n, cut, out := Commands(ch);
    }

    /** The serving loop: each session is followed by the job it may have accepted. `states` are those between the sessions. */
    method ServeAll(chs: seq<Chan>, execs: seq<Async.Exec>, afters: seq<Store>, chunk: nat) returns (ghost visits: seq<Visit>, ghost states: seq<Sess>)
      requires |chs| == |execs| == |afters| && 1 <= chunk && forall ch :: ch in chs ==> ch.Chunk() == chunk
      requires forall i, j :: 0 <= i < j < |chs| ==> chs[i] != chs[j]
      modifies this, set ch | ch in chs
      ensures |visits| == |chs| && Abs() == Lifetime(h, chunk, old(Abs()), visits)
      ensures Between(h, chunk, old(Abs()), visits, states)
      ensures forall i :: 0 <= i < |chs| ==>
        && (visits[i].input, visits[i].exec, visits[i].after) == (old(chs[i].incoming), execs[i], afters[i])
        && (chs[i].room > 0 ==> Whole(h, chunk, states[i], visits[i], old(chs[i].outgoing), chs[i]))
    {
      visits, states := [], [];
      for i := 0 to |chs|
        invariant |visits| == i && Abs() == Lifetime(h, chunk, old(Abs()), visits)
        invariant Between(h, chunk, old(Abs()), visits, states)
        invariant forall j :: i <= j < |chs| ==> chs[j].incoming == old(chs[j].incoming) && chs[j].outgoing == old(chs[j].outgoing)
        invariant forall j :: 0 <= j < i ==> Met(h, chunk, states[j], visits[j], old(chs[j].incoming), execs[j], afters[j], old(chs[j].outgoing), chs[j])
      {
        ghost var s := Abs();
        ghost var v := Visited(chs[i], execs[i], afters[i], chunk);
        LifetimeMore(h, chunk, old(Abs()), visits, v, states, s);
        visits, states := visits + [v], states + [s];
      }
    }

    /** One turn of the serving loop. */
    method Visited(ch: Chan, exec: Async.Exec, after: Store, chunk: nat) returns (ghost v: Visit)
      requires 1 <= chunk == ch.Chunk()
      modifies this, ch
      ensures Abs() == AfterVisit(h, chunk, old(Abs()), v)
      ensures Met(h, chunk, old(Abs()), v, old(ch.incoming), exec, after, old(ch.outgoing), ch)
    {
      ghost var n, cut := SessionRun(ch);
      v := Visit(old(ch.incoming), n, cut, exec, after);
      RunPendingJob(exec, after);
    }
  }

  /** The visit is that of the channel, and is a whole session unless the peer has stopped taking its answers. */
  ghost predicate Met(h: Host, chunk: nat, s: Sess, v: Visit, input: string, exec: Async.Exec, after: Store, before: string, ch: Chan)
    requires 1 <= chunk
    reads ch
  {
    (v.input, v.exec, v.after) == (input, exec, after) && (ch.room > 0 ==> Whole(h, chunk, s, v, before, ch))
  }

  /** A session nothing cut short: every command up to the one that ends it is obeyed, and everything is answered. */
  ghost predicate Whole(h: Host, chunk: nat, s: Sess, v: Visit, before: string, ch: Chan)
    requires 1 <= chunk
    reads ch
  {
    var g, all := Obeyed(h, chunk, Stage(Fresh(s), v.input, false), v.commands), Serve(h, chunk, Fresh(s), v.input);
    && !v.cut && g == Stage(all.sess, ch.incoming, true)
    && ch.outgoing == before + (h.greeting + "\n") + all.out
  }

  /** `states` are those the visits find the daemon in. */
  ghost predicate Between(h: Host, chunk: nat, s: Sess, visits: seq<Visit>, states: seq<Sess>)
    requires 1 <= chunk
  {
    |states| == |visits| && forall i :: 0 <= i < |visits| ==> states[i] == Lifetime(h, chunk, s, visits[..i])
  }

  lemma LifetimeMore(h: Host, chunk: nat, s: Sess, visits: seq<Visit>, v: Visit, states: seq<Sess>, now: Sess)
    requires 1 <= chunk && now == Lifetime(h, chunk, s, visits) && Between(h, chunk, s, visits, states)
    ensures Lifetime(h, chunk, s, visits + [v]) == AfterVisit(h, chunk, now, v)
    ensures Between(h, chunk, s, visits + [v], states + [now])
  {
    assert (visits + [v])[..|visits|] == visits;
    assert forall j :: 0 <= j < |visits| ==> (visits + [v])[..j] == visits[..j];
  }

  /** An upload whose OK did not get through has left an empty file. */
  function HalfPut(h: Host, s: Sess, path: string): Sess {
    var name := h.at(s.dir, path);
    if path == "" || !h.creatable(name) then s else s.(store := Place(s.store, name, Some("")))
  }

  /** The session when the first answer to AUTH or PUT does not get through: no login, or an empty upload. */
  function Undone(h: Host, s: Sess, c: Command): Sess {
    if s.authed && VerbOf(c.verb).PUT? then HalfPut(h, s, Default(c.arg)) else s
  }

  /** A session under way: its state, the bytes to come, and whether it is over. */
  datatype Stage = Stage(sess: Sess, rest: string, over: bool)

  function Onward(h: Host, chunk: nat, g: Stage): Stage
    requires 1 <= chunk
  {
    if g.over then g
    else
      var (line, rest) := ReadLine(g.rest, LINE_MAX, "");
      if !line.Got? then Stage(g.sess, rest, true)
      else
        var t := Respond(h, chunk, g.sess, line.text, rest);
        Stage(t.sess, t.rest, t.over)
  }

  /** What a session is left as when the next command is AUTH or PUT and its first answer does not get through. */
  function Halted(h: Host, g: Stage): Sess {
    var line := ReadLine(g.rest, LINE_MAX, "").0;
    if g.over || !line.Got? then g.sess else Undone(h, g.sess, Split(line.text))
  }

  function Left(h: Host, g: Stage, cut: bool): Sess { if cut then Halted(h, g) else g.sess }

  /** The session after its first `n` commands, or fewer if it ends before. */
  function Obeyed(h: Host, chunk: nat, g: Stage, n: nat): Stage
    requires 1 <= chunk
  {
    if n == 0 then g else Onward(h, chunk, Obeyed(h, chunk, g, n - 1))
  }

  /** The state a session starts in. */
  function Fresh(s: Sess): Sess { s.(authed := false, env := [], job := s.job.(pending := false)) }

  /** `done` answers given, the rest of the session is that of the whole. */
  ghost predicate Along(all: Served, done: string, more: Served) {
    all == more.(out := done + more.out)
  }

  // ---------------------------------------------------------------- authentication

  /**
    Without the token nothing happens: unless the first line is AUTH with the daemon's
    token, the session ends after that line, nothing is changed, and the answer is at
    most one fixed line.
  */
  lemma NothingWithoutToken(h: Host, chunk: nat, s: Sess, input: string)
    requires 1 <= chunk && !s.authed
    ensures var (line, rest) := ReadLine(input, LINE_MAX, ""); var all := Serve(h, chunk, s, input);
      if line.Got? && Split(line.text) == Command("AUTH", Some(h.token)) then all == Serve(h, chunk, s.(authed := true), rest).(out := "OK\n" + Serve(h, chunk, s.(authed := true), rest).out)
      else all.sess == s && all.rest == rest && Refusal(all.out)
  {
    var (line, rest) := ReadLine(input, LINE_MAX, "");
    if line.Got? { AuthTurn(h, s, Split(line.text), rest); }
  }

  predicate Refusal(out: string) {
    out == "" || out == "OK" + "\n" || out == "ERR 401 auth failed" + "\n" || out == "ERR 400 protocol violation\n"
  }

  lemma AuthTurn(h: Host, s: Sess, c: Command, rest: string)
    ensures var t := HandleAuth(h, s, c, rest);
      if c == Command("AUTH", Some(h.token)) then t == Turn("OK\n", s.(authed := true), rest, false)
      else t.sess == s && t.rest == rest && t.over && Refusal(t.out)
  {
    assert "OK" + "\n" == "OK\n";
  }

  // ---------------------------------------------------------------- variables

  /** What the table is for: the value of each variable. */
  function Vars(env: seq<Env>): map<string, string> {
    if env == [] then map[] else Vars(env[..|env| - 1])[env[|env| - 1].name := env[|env| - 1].val]
  }

  /** Room for 32 variables, each with a shell name, once. */
  predicate TableOk(env: seq<Env>) {
    && |env| <= ENV_MAX
    && (forall e :: e in env ==> EnvOk(e) && |e.name| < ENVN_MAX && |e.val| < ENVV_MAX)
    && (forall i, j :: 0 <= i < j < |env| ==> env[i].name != env[j].name)
  }

  lemma {:induction false} VarsNames(env: seq<Env>, name: string)
    ensures name in Vars(env) <==> IndexOf(env, name) < |env|
  {
    if env != [] {
      var n := |env| - 1;
      VarsNames(env[..n], name);
      IndexOfPrefix(env, n, name);
    }
  }

  lemma {:induction false} IndexOfPrefix(env: seq<Env>, n: nat, name: string)
    requires n + 1 == |env|
    ensures IndexOf(env, name) < |env| <==> IndexOf(env[..n], name) < n || env[n].name == name
  {
    var i, j := IndexOf(env, name), IndexOf(env[..n], name);
    if i < n { assert env[..n][i].name == name; }
    if j < n { assert env[j].name == name; }
  }

  /** Overwriting the entry of a name, wherever it is, sets the variable. */
  lemma {:induction false} VarsOverwrite(env: seq<Env>, i: nat, e: Env)
    requires i < |env| && env[i].name == e.name && forall j :: i < j < |env| ==> env[j].name != e.name
    ensures Vars(env[i := e]) == Vars(env)[e.name := e.val]
    decreases |env|
  {
    var n := |env| - 1;
    var init := env[..n];
    if i == n {
      assert env[i := e][..n] == init;
    } else {
      assert env[i := e][..n] == init[i := e];
      VarsOverwrite(init, i, e);
    }
  }

  /**
    ENV keeps the table in order and means what it says: accepted exactly when the name and
    value are in form and the name is known or there is room for it, and then it sets that
    variable and no other; refused, it changes nothing.
  */
  lemma SetEnvSets(env: seq<Env>, name: string, val: string)
    requires TableOk(env) && '=' !in name
    ensures var (env1, reply) := SetEnv(env, Some(name + "=" + val));
      && TableOk(env1)
      && (reply == "OK" <==> IsName(name) && |name| < 64 && |val| < 192 && (name in Vars(env) || |env| < 32))
      && Vars(env1) == (if reply == "OK" then Vars(env)[name := val] else Vars(env))
      && (reply != "OK" ==> env1 == env)
  {
    var e := Env(name, val);
    NamesAgree(e);
    SetEnvIs(env, name, val);
    EntrySets(env, e);
    if EnvOk(e) && |name| < ENVN_MAX && |val| < ENVV_MAX && (IndexOf(env, name) < |env| || |env| < ENV_MAX) {
      TableKeeps(env, IndexOf(env, name), e, Entered(env, e));
    }
  }

  /** The entry of a variable overwritten, or added at the end. */
  function Entered(env: seq<Env>, e: Env): seq<Env> {
    if IndexOf(env, e.name) < |env| then env[IndexOf(env, e.name) := e] else env + [e]
  }

  lemma SetEnvIs(env: seq<Env>, name: string, val: string)
    requires '=' !in name
    ensures var e := Env(name, val);
      SetEnv(env, Some(name + "=" + val)) ==
      if !EnvOk(e) || |name| >= ENVN_MAX || |val| >= ENVV_MAX then (env, "ERR 431 env too long")
      else if IndexOf(env, name) == |env| >= ENV_MAX then (env, "ERR 431 too many env")
      else (Entered(env, e), "OK")
  {
    var text := name + "=" + val;
    FindIs(name, "=" + val, '=');
    assert text == name + ("=" + val) && text[..|name|] == name && text[|name| + 1..] == val;
  }

  lemma EntrySets(env: seq<Env>, e: Env)
    ensures TableOk(env) ==> Vars(Entered(env, e)) == Vars(env)[e.name := e.val]
    ensures e.name in Vars(env) <==> IndexOf(env, e.name) < |env|
  {
    var i := IndexOf(env, e.name);
    VarsNames(env, e.name);
    if i == |env| {
      assert (env + [e])[..|env|] == env;
    } else if TableOk(env) {
      VarsOverwrite(env, i, e);
    }
  }

  lemma {:induction false} FindIs(a: string, b: string, c: char)
    requires c !in a && b != "" && b[0] == c
    ensures Find(a + b, c) == |a|
    decreases |a|
  {
    if a == "" {
      assert a + b == b;
    } else {
      assert (a + b)[1..] == a[1..] + b;
      FindIs(a[1..], b, c);
    }
  }

  lemma TableKeeps(env: seq<Env>, i: nat, e: Env, env1: seq<Env>)
    requires TableOk(env) && i == IndexOf(env, e.name) && EnvOk(e) && |e.name| < ENVN_MAX && |e.val| < ENVV_MAX
    requires if i < |env| then env1 == env[i := e] else env1 == env + [e] && |env| < ENV_MAX
    ensures TableOk(env1)
  {
    forall x | x in env1 ensures EnvOk(x) && |x.name| < ENVN_MAX && |x.val| < ENVV_MAX {
      assert x == e || x in env;
    }
  }

  lemma SetEnvKeepsTable(env: seq<Env>, arg: Option<string>)
    requires TableOk(env)
    ensures TableOk(SetEnv(env, arg).0)
  {
    if arg.Some? && Find(arg.value, '=') < |arg.value| {
      var n := Find(arg.value, '=');
      assert arg.value == arg.value[..n] + "=" + arg.value[n + 1..];
      SetEnvSets(env, arg.value[..n], arg.value[n + 1..]);
    }
  }

  /** In every session the variables handed to a job are a proper table, so the shell reads back exactly them. */
  lemma {:induction false} TablesStayOk(h: Host, chunk: nat, s: Sess, input: string)
    requires 1 <= chunk && TableOk(s.env) && TableOk(s.job.env)
    ensures var s1 := Serve(h, chunk, s, input).sess; TableOk(s1.env) && TableOk(s1.job.env)
    ensures var env := Serve(h, chunk, s, input).sess.job.env; var cmd := Serve(h, chunk, s, input).sess.job.cmd;
      ReadExports(Script(env, cmd)[2..], |env|) == Some((env, cmd + " )"))
    decreases |input|
  {
    var (line, rest) := ReadLine(input, LINE_MAX, "");
    if line.Got? {
      RespondTables(h, chunk, s, line.text, rest);
      RespondShrinks(h, chunk, s, line.text, rest);
      var t := Respond(h, chunk, s, line.text, rest);
      if !t.over { TablesStayOk(h, chunk, t.sess, t.rest); }
    }
    ScriptReads(Serve(h, chunk, s, input).sess.job.env, Serve(h, chunk, s, input).sess.job.cmd);
  }

  lemma RespondTables(h: Host, chunk: nat, s: Sess, line: string, rest: string)
    requires 1 <= chunk && TableOk(s.env) && TableOk(s.job.env)
    ensures var s1 := Respond(h, chunk, s, line, rest).sess; TableOk(s1.env) && TableOk(s1.job.env)
  {
    SetEnvKeepsTable(s.env, Split(line).arg);
    RespondEnv(h, chunk, s, line, rest);
  }

  /** Only ENV touches the variables, and only RUNA hands them on. */
  lemma RespondEnv(h: Host, chunk: nat, s: Sess, line: string, rest: string)
    requires 1 <= chunk
    ensures EnvMoves(s, Split(line).arg, Respond(h, chunk, s, line, rest).sess)
  {
    var c := Split(line);
    if s.authed {
      match VerbOf(c.verb)
      case RUN => JobEnv(h, chunk, s, RUN, c.arg, rest);
      case RUNA => JobEnv(h, chunk, s, RUNA, c.arg, rest);
      case PUT => PutEnv(h, s, Default(c.arg), rest);
      case _ =>
    }
  }

  predicate EnvMoves(s: Sess, arg: Option<string>, s1: Sess) {
    && (s1.env == s.env || s1.env == SetEnv(s.env, arg).0)
    && (s1.job.env == s.job.env || s1.job.env == s.env)
  }

  lemma JobEnv(h: Host, chunk: nat, s: Sess, v: Verb, arg: Option<string>, rest: string)
    requires 1 <= chunk
    ensures EnvMoves(s, arg, JobCommand(h, chunk, s, v, arg, rest).sess)
  {
  }

  lemma PutEnv(h: Host, s: Sess, path: string, rest: string)
    ensures Put(h, s, path, rest).sess.env == s.env && Put(h, s, path, rest).sess.job == s.job
  {
  }

  // ---------------------------------------------------------------- jobs

  /** The daemon as the job protocol sees it. */
  function JobView(s: Sess, phase: Async.Phase, history: seq<Async.Submission>): Async.Daemon {
    Async.Daemon(phase, s.counter, Async.Job(s.job.pending, s.job.id, s.job.cmd), s.res, s.capture, history)
  }

  function PhaseOf(s: Sess, over: bool): Async.Phase {
    if over then Async.Closing else Async.InSession(s.authed)
  }

  /** Which step of the job protocol a line is. */
  function EventOf(s: Sess, c: Command, over: bool): Async.Event {
    if !s.authed then (if c.verb == "QUIT" then Async.Close else Async.Auth(!over)) else EventOfVerb(VerbOf(c.verb), c.arg, over)
  }

  function EventOfVerb(v: Verb, arg: Option<string>, over: bool): Async.Event {
    if v.RUN? && arg.Some? then Async.Run
    else if v.RUNA? && arg.Some? then Async.Runa(arg.value)
    else if over then Async.Close
    else Async.Other
  }

  /** The jobs accepted, one more after RUNA. */
  function Accepted(history: seq<Async.Submission>, e: Async.Event): seq<Async.Submission> {
    if e.Runa? then history + [Async.Submission(e.cmd, None)] else history
  }

  /** Every line of a session is one step of the job protocol. */
  lemma RespondIsEvent(h: Host, chunk: nat, s: Sess, line: string, rest: string, history: seq<Async.Submission>)
    requires 1 <= chunk
    ensures var t := Respond(h, chunk, s, line, rest); var e := EventOf(s, Split(line), t.over);
      JobView(t.sess, PhaseOf(t.sess, t.over), Accepted(history, e)) == Async.Next(JobView(s, PhaseOf(s, false), history), e)
  {
    var c := Split(line);
    if s.authed {
      var v := VerbOf(c.verb);
      if v.RUN? || v.RUNA? {
        JobLineIsEvent(h, chunk, s, v, c.arg, rest, history);
      } else {
        OtherIsEvent(h, chunk, s, v, c.arg, rest);
      }
    }
  }

  lemma JobLineIsEvent(h: Host, chunk: nat, s: Sess, v: Verb, arg: Option<string>, rest: string, history: seq<Async.Submission>)
    requires 1 <= chunk && s.authed && (v.RUN? || v.RUNA?)
    ensures var t := JobCommand(h, chunk, s, v, arg, rest); var e := EventOfVerb(v, arg, t.over);
      JobView(t.sess, PhaseOf(t.sess, t.over), Accepted(history, e)) == Async.Next(JobView(s, PhaseOf(s, false), history), e)
  {
  }

  /** No other line touches jobs, results or capture files. */
  lemma OtherIsEvent(h: Host, chunk: nat, s: Sess, v: Verb, arg: Option<string>, rest: string)
    requires 1 <= chunk && !v.RUN? && !v.RUNA?
    ensures SameJobs(s, Act(h, chunk, s, v, arg, rest).sess)
  {
    if v.PUT? { PutSameJobs(h, s, Default(arg), rest); }
  }

  lemma PutSameJobs(h: Host, s: Sess, path: string, rest: string)
    ensures SameJobs(s, Put(h, s, path, rest).sess)
  {
  }

  predicate SameJobs(s: Sess, s1: Sess) {
    s1.counter == s.counter && s1.job == s.job && s1.res == s.res && s1.capture == s.capture && s1.authed == s.authed
  }

  // ---------------------------------------------------------------- the daemon's lifetime

  /** Between sessions: the accepted job runs; its outcome replaces result and capture files, and the files are those it leaves. */
  function AfterJob(s: Sess, exec: Async.Exec, after: Store): Sess {
    if !s.job.pending then s
    else s.(job := s.job.(pending := false), capture := exec.files, store := after,
            res := if exec.Exited? then Async.Res(true, s.job.id, exec.code) else s.res.(valid := false))
  }

  /**
    One session: what the client sends, how many of its commands are obeyed, whether the
    session is then cut short by an answer that does not get through, how the job it may
    have accepted ends, and the files that job leaves.
  */
  datatype Visit = Visit(input: string, commands: nat, cut: bool, exec: Async.Exec, after: Store)

  /** The daemon after a list of sessions. */
  function Lifetime(h: Host, chunk: nat, s: Sess, visits: seq<Visit>): Sess
    requires 1 <= chunk
  {
    if visits == [] then s else AfterVisit(h, chunk, Lifetime(h, chunk, s, visits[..|visits| - 1]), visits[|visits| - 1])
  }

  function AfterVisit(h: Host, chunk: nat, s: Sess, v: Visit): Sess
    requires 1 <= chunk
  {
    AfterJob(Left(h, Obeyed(h, chunk, Stage(Fresh(s), v.input, false), v.commands), v.cut), v.exec, v.after)
  }

  lemma {:induction false} RunAllAppend(d: Async.Daemon, a: seq<Async.Event>, b: seq<Async.Event>)
    ensures Async.RunAll(d, a + b) == Async.RunAll(Async.RunAll(d, a), b)
    decreases |b|
  {
    if b == [] {
      assert a + b == a;
    } else {
      assert (a + b)[..|a + b| - 1] == a + b[..|b| - 1];
      RunAllAppend(d, a, b[..|b| - 1]);
    }
  }

  lemma RunAllOne(d: Async.Daemon, e: Async.Event)
    ensures Async.RunAll(d, [e]) == Async.Next(d, e)
  {
    assert [e][..0] == [];
    assert Async.RunAll(d, []) == d;
  }

  /** What the next line of a session is to the job protocol; nothing once the session is over. */
  function One(h: Host, chunk: nat, g: Stage): seq<Async.Event>
    requires 1 <= chunk
  {
    if g.over then []
    else
      var (line, rest) := ReadLine(g.rest, LINE_MAX, "");
      if !line.Got? then [Async.Close]
      else [EventOf(g.sess, Split(line.text), Respond(h, chunk, g.sess, line.text, rest).over)]
  }

  function Told(h: Host, chunk: nat, g: Stage, n: nat): seq<Async.Event>
    requires 1 <= chunk
  {
    if n == 0 then [] else Told(h, chunk, g, n - 1) + One(h, chunk, Obeyed(h, chunk, g, n - 1))
  }

  /** The command of the job accepted in a session, if there was one. */
  function Submitted(es: seq<Async.Event>): Option<string> {
    if es == [] then None
    else
      var n := |es| - 1;
      if es[n].Runa? then Some(es[n].cmd) else Submitted(es[..n])
  }

  /** The entry of that job, and how it ended. */
  function Entry(es: seq<Async.Event>, end: Option<Async.Exec>): seq<Async.Submission> {
    match Submitted(es) case None => [] case Some(cmd) => [Async.Submission(cmd, end)]
  }

  /** The events told so far lead to the stage `g`. */
  ghost predicate LeadsTo(d: Async.Daemon, es: seq<Async.Event>, g: Stage, history: seq<Async.Submission>) {
    && Async.RunAll(d, es) == JobView(g.sess, PhaseOf(g.sess, g.over), history + Entry(es, None))
    && (Submitted(es).Some? <==> g.sess.job.pending) && (Submitted(es).Some? ==> g.over)
  }

  lemma OnwardIsRun(h: Host, chunk: nat, d: Async.Daemon, g: Stage, es: seq<Async.Event>, history: seq<Async.Submission>)
    requires 1 <= chunk && LeadsTo(d, es, g, history)
    ensures LeadsTo(d, es + One(h, chunk, g), Onward(h, chunk, g), history)
  {
    if g.over {
      assert es + [] == es;
    } else {
      var (line, rest) := ReadLine(g.rest, LINE_MAX, "");
      if line.Got? {
        var t := Respond(h, chunk, g.sess, line.text, rest);
        RespondIsEvent(h, chunk, g.sess, line.text, rest, history);
        OneMoreTold(d, es, g, EventOf(g.sess, Split(line.text), t.over), Stage(t.sess, t.rest, t.over), history);
      } else {
        OneMoreTold(d, es, g, Async.Close, Stage(g.sess, rest, true), history);
      }
    }
  }

  lemma OneMoreTold(d: Async.Daemon, es: seq<Async.Event>, g: Stage, e: Async.Event, g1: Stage, history: seq<Async.Submission>)
    requires LeadsTo(d, es, g, history) && !g.over && (e.Runa? ==> g.sess.authed) && !e.Accept? && !e.RunPending?
    requires JobView(g1.sess, PhaseOf(g1.sess, g1.over), Accepted(history, e)) == Async.Next(JobView(g.sess, PhaseOf(g.sess, false), history), e)
    ensures LeadsTo(d, es + [e], g1, history)
  {
    assert history + [] == history;
    RunAllAppend(d, es, [e]);
    RunAllOne(Async.RunAll(d, es), e);
    SubmittedSnoc(es, e);
  }

  /** However many commands a session obeys, its lines are a run of the job protocol; a job accepted ends it and waits to be run. */
  lemma ObeyedIsRun(h: Host, chunk: nat, s: Sess, input: string, n: nat, history: seq<Async.Submission>)
    requires 1 <= chunk && !s.job.pending
    ensures var g0 := Stage(s, input, false);
      LeadsTo(JobView(s, PhaseOf(s, false), history), Told(h, chunk, g0, n), Obeyed(h, chunk, g0, n), history)
  {
    var d, g0 := JobView(s, PhaseOf(s, false), history), Stage(s, input, false);
    var es, g := Told(h, chunk, g0, 0), Obeyed(h, chunk, g0, 0);
    NothingTold(d, g0, history);
    for k := 0 to n
      invariant es == Told(h, chunk, g0, k) && g == Obeyed(h, chunk, g0, k)
      invariant LeadsTo(d, es, g, history)
    {
      OnwardIsRun(h, chunk, d, g, es, history);
      es, g := es + One(h, chunk, g), Onward(h, chunk, g);
    }
  }

  lemma NothingTold(d: Async.Daemon, g: Stage, history: seq<Async.Submission>)
    requires !g.sess.job.pending && d == JobView(g.sess, PhaseOf(g.sess, g.over), history)
    ensures LeadsTo(d, [], g, history)
  {
    assert history + [] == history && Async.RunAll(d, []) == d;
  }

  lemma SubmittedSnoc(es: seq<Async.Event>, e: Async.Event)
    ensures Submitted(es + [e]) == if e.Runa? then Some(e.cmd) else Submitted(es)
  {
    assert (es + [e])[..|es|] == es;
  }

  /** A session that nothing cuts short is one that obeys enough commands. */
  lemma {:induction false} ServeIsObeyed(h: Host, chunk: nat, s: Sess, input: string) returns (n: nat)
    requires 1 <= chunk
    ensures var g, all := Obeyed(h, chunk, Stage(s, input, false), n), Serve(h, chunk, s, input);
      g == Stage(all.sess, all.rest, true)
    decreases |input|
  {
    var (line, rest) := ReadLine(input, LINE_MAX, "");
    var g := Stage(s, input, false);
    var g1 := Onward(h, chunk, g);
    ObeyedFirst(h, chunk, g, g1, 0);
    n := 1;
    if line.Got? {
      RespondShrinks(h, chunk, s, line.text, rest);
      var t := Respond(h, chunk, s, line.text, rest);
      if !t.over {
        var m := ServeIsObeyed(h, chunk, t.sess, t.rest);
        ObeyedFirst(h, chunk, g, g1, m);
        n := m + 1;
      }
    }
  }

  lemma {:induction false} ObeyedFirst(h: Host, chunk: nat, g: Stage, g1: Stage, n: nat)
    requires 1 <= chunk && g1 == Onward(h, chunk, g)
    ensures Obeyed(h, chunk, g, n + 1) == Obeyed(h, chunk, g1, n)
  {
    if n == 0 {
      assert Obeyed(h, chunk, g, 0) == g;
    } else {
      ObeyedFirst(h, chunk, g, g1, n - 1);
    }
  }

  /** A visit as the job protocol sees it. */
  function VisitEvents(h: Host, chunk: nat, s: Sess, v: Visit): seq<Async.Event>
    requires 1 <= chunk
  {
    [Async.Accept] + Told(h, chunk, Stage(Fresh(s), v.input, false), v.commands) + [Async.Close, Async.RunPending(v.exec)]
  }

  /** The events of a lifetime: those of its lines, and of its jobs' ends. */
  function Trace(h: Host, chunk: nat, s: Sess, visits: seq<Visit>): seq<Async.Event>
    requires 1 <= chunk
  {
    if visits == [] then []
    else
      var n := |visits| - 1;
      Trace(h, chunk, s, visits[..n]) + VisitEvents(h, chunk, Lifetime(h, chunk, s, visits[..n]), visits[n])
  }

  /** The jobs accepted in a lifetime, in order: the command of each RUNA line obeyed, and how the job of that visit ended. */
  function Ledger(h: Host, chunk: nat, s: Sess, visits: seq<Visit>): seq<Async.Submission>
    requires 1 <= chunk
  {
    if visits == [] then []
    else
      var n := |visits| - 1;
      var g := Stage(Fresh(Lifetime(h, chunk, s, visits[..n])), visits[n].input, false);
      Ledger(h, chunk, s, visits[..n]) + Entry(Told(h, chunk, g, visits[n].commands), Some(visits[n].exec))
  }

  /**
    The session code runs the job protocol: whatever sessions a daemon serves, wherever
    they are cut short, and however the accepted jobs end, its counter, job, result and
    capture files, with the jobs accepted and their ends, are those that the protocol
    reaches from its start on the events of those very lines and ends. So while a result
    is held it has the number, code and output of the last job accepted.
  */
  lemma {:induction false} LifetimeIsRun(h: Host, chunk: nat, s: Sess, visits: seq<Visit>)
    requires 1 <= chunk && JobView(s, Async.Accepting, []) == Async.Start
    ensures var s1, jobs := Lifetime(h, chunk, s, visits), Ledger(h, chunk, s, visits);
      && Async.RunAll(Async.Start, Trace(h, chunk, s, visits)) == JobView(s1, Async.Accepting, jobs)
      && Async.Inv(JobView(s1, Async.Accepting, jobs))
      && (s1.res.valid ==> jobs != [] && s1.res.id == Async.IdOf(|jobs|) && jobs[|jobs| - 1].end == Some(Async.Exited(s1.res.code, s1.capture)))
  {
    if visits == [] {
      assert Async.RunAll(Async.Start, []) == Async.Start;
    } else {
      var n := |visits| - 1;
      LifetimeIsRun(h, chunk, s, visits[..n]);
      var s0, jobs := Lifetime(h, chunk, s, visits[..n]), Ledger(h, chunk, s, visits[..n]);
      RunAllAppend(Async.Start, Trace(h, chunk, s, visits[..n]), VisitEvents(h, chunk, s0, visits[n]));
      VisitIsRun(h, chunk, s0, visits[n], jobs);
    }
    Async.RunInv(Trace(h, chunk, s, visits));
  }

  lemma VisitIsRun(h: Host, chunk: nat, s: Sess, v: Visit, history: seq<Async.Submission>)
    requires 1 <= chunk
    ensures var told := Told(h, chunk, Stage(Fresh(s), v.input, false), v.commands);
      Async.RunAll(JobView(s, Async.Accepting, history), VisitEvents(h, chunk, s, v))
      == JobView(AfterVisit(h, chunk, s, v), Async.Accepting, history + Entry(told, Some(v.exec)))
  {
    var d, g0 := JobView(s, Async.Accepting, history), Stage(Fresh(s), v.input, false);
    var g, told := Obeyed(h, chunk, g0, v.commands), Told(h, chunk, g0, v.commands);
    RunAllOne(d, Async.Accept);
    ObeyedIsRun(h, chunk, Fresh(s), v.input, v.commands, history);
    RunAllAppend(d, [Async.Accept], told);
    RunAllAppend(d, [Async.Accept] + told, [Async.Close, Async.RunPending(v.exec)]);
    var d2 := JobView(g.sess, PhaseOf(g.sess, g.over), history + Entry(told, None));
    RunAllTwo(d2, Async.Close, Async.RunPending(v.exec));
    HaltedSameJobs(h, g);
    JobEnds(g, Left(h, g, v.cut), told, v, history);
  }

  lemma RunAllTwo(d: Async.Daemon, a: Async.Event, b: Async.Event)
    ensures Async.RunAll(d, [a, b]) == Async.Next(Async.Next(d, a), b)
  {
    RunAllOne(d, a);
    assert [a, b][..1] == [a];
  }

  /** An answer that does not get through changes no job. */
  lemma HaltedSameJobs(h: Host, g: Stage)
    ensures JobsOf(Halted(h, g)) == JobsOf(g.sess)
  {
  }

  function JobsOf(s: Sess): Async.Daemon { JobView(s, Async.Closing, []) }

  /** The job a session has accepted is run after it, and its end is entered. */
  lemma JobEnds(g: Stage, left: Sess, told: seq<Async.Event>, v: Visit, history: seq<Async.Submission>)
    requires JobsOf(left) == JobsOf(g.sess) && (Submitted(told).Some? <==> g.sess.job.pending)
    ensures var d := JobView(g.sess, PhaseOf(g.sess, g.over), history + Entry(told, None));
      Async.Next(Async.Next(d, Async.Close), Async.RunPending(v.exec))
      == JobView(AfterJob(left, v.exec, v.after), Async.Accepting, history + Entry(told, Some(v.exec)))
  {
    if Submitted(told).Some? {
      var cmd := Submitted(told).value;
      assert (history + [Async.Submission(cmd, None)])[|history| := Async.Submission(cmd, Some(v.exec))]
        == history + [Async.Submission(cmd, Some(v.exec))];
    }
  }

  /** RUNA names the job it accepts: the number of jobs accepted, counted round after 32767. */
  lemma RunaNamesJob(s: Sess, cmd: string, rest: string, history: seq<Async.Submission>)
    requires Async.Inv(JobView(s, PhaseOf(s, false), history))
    ensures Runa(s, cmd, rest).out == "OK " + Print(Async.IdOf(|history| + 1)) + "\n"
  {
    Async.NextIdIs(|history|);
  }

  /** RESULT is answered exactly when a result is held and the last job accepted is the one named; the answer is that job's code and files. */
  lemma ResultIsLastJobs(h: Host, chunk: nat, s: Sess, arg: Option<string>, rest: string, history: seq<Async.Submission>)
    requires 1 <= chunk && Async.Inv(JobView(s, PhaseOf(s, false), history))
    ensures var n := |history|; var t := Result(h, chunk, s, arg, rest);
      if s.res.valid && arg.Some? && n > 0 && Atol(arg.value) == Async.IdOf(n)
      then history[n - 1].end == Some(Async.Exited(s.res.code, s.capture)) && t.out == Captured(h, chunk, s.capture, s.res.code)
      else t.out == "ERR 404 no such result\n"
  {
  }

  // ---------------------------------------------------------------- both ends in step

  /** What a client asks for within a session: any line but QUIT, RUNA and PUT, or an upload. */
  datatype Request = Line(text: string) | Upload(path: string, data: string)

  function LineOf(q: Request): string {
    match q case Line(text) => text case Upload(path, _) => "PUT " + path
  }

  /** The frames that follow an upload's line, once the daemon has said OK to it. */
  function BodyOf(h: Host, s: Sess, block: nat, q: Request): string
    requires 1 <= block
  {
    match q
    case Line(_) => ""
    case Upload(path, data) => if h.creatable(h.at(s.dir, path)) then Transfer.FileWire(data, 0, block) else ""
  }

  /** The request fits a line, and an upload is within the cap and the space. */
  predicate Proper(h: Host, q: Request) {
    && Plain(LineOf(q)) && |LineOf(q)| < LINE_MAX
    && match q
       case Line(text) => var v := VerbOf(Split(text).verb); !v.PUT? && !v.QUIT? && !v.RUNA?
       case Upload(path, data) => path != "" && |data| <= h.disk < 0x8000_0000_0000_0000 && (h.cap == 0 || |data| <= h.cap)
  }

  /** What the daemon makes of one request sent on its own. */
  function Answer(h: Host, chunk: nat, block: nat, s: Sess, q: Request): Turn
    requires 1 <= chunk && 1 <= block
  {
    Respond(h, chunk, s, LineOf(q), BodyOf(h, s, block, q))
  }

  /** The bytes a client sends for a list of requests, and what the daemon answers to each sent on its own. */
  function Sent(h: Host, chunk: nat, block: nat, s: Sess, qs: seq<Request>): string
    requires 1 <= chunk && 1 <= block
    decreases |qs|
  {
    if qs == [] then ""
    else LineOf(qs[0]) + "\n" + BodyOf(h, s, block, qs[0]) + Sent(h, chunk, block, Answer(h, chunk, block, s, qs[0]).sess, qs[1..])
  }

  function Answers(h: Host, chunk: nat, block: nat, s: Sess, qs: seq<Request>): (string, Sess)
    requires 1 <= chunk && 1 <= block
    decreases |qs|
  {
    if qs == [] then ("", s)
    else
      var t := Answer(h, chunk, block, s, qs[0]);
      var (more, s1) := Answers(h, chunk, block, t.sess, qs[1..]);
      (t.out + more, s1)
  }

  /** Where the client stops reading the answer to a request. */
  function AfterReply(q: Request, input: string): string {
    var (line, rest) := ReadLine(input, LINE_MAX, "");
    match q
    case Upload(_, _) => if line == Got("OK") then ReadLine(rest, LINE_MAX, "").1 else rest
    case Line(text) =>
      match VerbOf(Split(text).verb)
      case RUN | RESULT => Output.Consume(input).rest
      case GET => if line == Got("OK") then Transfer.Receive(rest, LINE_MAX, 0, |rest|, "").rest else rest
      case _ => rest
  }

  function AfterReplies(qs: seq<Request>, input: string): string {
    if qs == [] then input else AfterReplies(qs[1..], AfterReply(qs[0], input))
  }

  predicate SessOk(s: Sess) { s.authed && (s.res.valid ==> 0 < s.res.id <= Async.JOB_MAX) }

  // The daemon's side.

  lemma SplitPut(path: string)
    ensures Split("PUT " + path) == Command("PUT", Some(path))
  {
    SplitLine("PUT", path);
    assert "PUT" + " " + path == "PUT " + path;
  }

  /** A request is answered the same whatever follows it, and exactly its own bytes are taken. */
  lemma TakesItsOwn(h: Host, chunk: nat, block: nat, s: Sess, q: Request, rest: string)
    requires 1 <= chunk && 1 <= block <= FRAME_MAX && SessOk(s) && Proper(h, q)
    ensures var t := Answer(h, chunk, block, s, q);
      Respond(h, chunk, s, LineOf(q), BodyOf(h, s, block, q) + rest) == t.(rest := rest) && !t.over && SessOk(t.sess)
  {
    if q.Upload? {
      SplitPut(q.path);
      UploadTakesItsOwn(h, block, s, q.path, q.data, rest);
    } else {
      assert "" + rest == rest;
      LineTakesNothing(h, chunk, s, Split(q.text), rest);
    }
  }

  lemma UploadTakesItsOwn(h: Host, block: nat, s: Sess, path: string, data: string, rest: string)
    requires 1 <= block <= FRAME_MAX && SessOk(s) && Proper(h, Upload(path, data))
    ensures var body := BodyOf(h, s, block, Upload(path, data)); var t := Put(h, s, path, body);
      Put(h, s, path, body + rest) == t.(rest := rest) && !t.over && SessOk(t.sess)
  {
    if h.creatable(h.at(s.dir, path)) {
      var body := Transfer.FileWire(data, 0, block);
      Transfer.UploadStoresFile(data, block, h.cap, h.disk, rest);
      Transfer.UploadStoresFile(data, block, h.cap, h.disk, "");
      Transfer.TransferIsIdentity(data, 0, block, Transfer.HDR_MAX, h.cap, h.disk, rest);
      Transfer.TransferIsIdentity(data, 0, block, Transfer.HDR_MAX, h.cap, h.disk, "");
      assert body + "" == body && data[..0] == "";
    } else {
      assert "" + rest == rest;
    }
  }

  lemma LineTakesNothing(h: Host, chunk: nat, s: Sess, c: Command, rest: string)
    requires 1 <= chunk && SessOk(s) && var v := VerbOf(c.verb); !v.PUT? && !v.QUIT? && !v.RUNA?
    ensures var t := Act(h, chunk, s, VerbOf(c.verb), c.arg, "");
      Act(h, chunk, s, VerbOf(c.verb), c.arg, rest) == t.(rest := rest) && !t.over && SessOk(t.sess)
  {
    VerbTakesNothing(h, chunk, s, VerbOf(c.verb), c.arg, rest);
  }

  lemma VerbTakesNothing(h: Host, chunk: nat, s: Sess, v: Verb, arg: Option<string>, rest: string)
    requires 1 <= chunk && SessOk(s) && !v.PUT? && !v.QUIT? && !v.RUNA?
    ensures var t := Act(h, chunk, s, v, arg, "");
      Act(h, chunk, s, v, arg, rest) == t.(rest := rest) && !t.over && SessOk(t.sess)
  {
  }

  /** A pipelined conversation: the daemon takes exactly the requests' bytes and answers each as if it came alone. */
  lemma {:induction false} DaemonInStep(h: Host, chunk: nat, block: nat, s: Sess, qs: seq<Request>, rest: string)
    requires 1 <= chunk && 1 <= block <= FRAME_MAX && SessOk(s) && forall q :: q in qs ==> Proper(h, q)
    ensures var (out, s1) := Answers(h, chunk, block, s, qs);
      SessOk(s1) && Along(Serve(h, chunk, s, Sent(h, chunk, block, s, qs) + rest), out, Serve(h, chunk, s1, rest))
    decreases |qs|
  {
    if qs == [] {
      assert "" + rest == rest;
      assert "" + Serve(h, chunk, s, rest).out == Serve(h, chunk, s, rest).out;
    } else {
      var q, t := qs[0], Answer(h, chunk, block, s, qs[0]);
      assert q in qs;
      var tail := Sent(h, chunk, block, t.sess, qs[1..]) + rest;
      TakesItsOwn(h, chunk, block, s, q, tail);
      DaemonInStep(h, chunk, block, t.sess, qs[1..], rest);
      FirstRequest(h, chunk, block, s, q, tail);
      SentCons(h, chunk, block, s, qs, rest);
      var r := Answers(h, chunk, block, t.sess, qs[1..]);
      AlongTwice(Serve(h, chunk, s, Sent(h, chunk, block, s, qs) + rest), t.out, Serve(h, chunk, t.sess, tail), r.0, Serve(h, chunk, r.1, rest));
    }
  }

  lemma SentCons(h: Host, chunk: nat, block: nat, s: Sess, qs: seq<Request>, rest: string)
    requires 1 <= chunk && 1 <= block && qs != []
    ensures Sent(h, chunk, block, s, qs) + rest
      == LineOf(qs[0]) + "\n" + (BodyOf(h, s, block, qs[0]) + (Sent(h, chunk, block, Answer(h, chunk, block, s, qs[0]).sess, qs[1..]) + rest))
  {
    Regroup(LineOf(qs[0]) + "\n", BodyOf(h, s, block, qs[0]), Sent(h, chunk, block, Answer(h, chunk, block, s, qs[0]).sess, qs[1..]), rest);
  }

  lemma Regroup(a: string, b: string, c: string, d: string)
    ensures (a + b + c) + d == a + (b + (c + d))
  {
  }

  lemma AlongTwice(all: Served, a: string, mid: Served, b: string, last: Served)
    requires Along(all, a, mid) && Along(mid, b, last)
    ensures Along(all, a + b, last)
  {
    Assoc(a, b, last.out);
  }

  lemma FirstRequest(h: Host, chunk: nat, block: nat, s: Sess, q: Request, tail: string)
    requires 1 <= chunk && 1 <= block <= FRAME_MAX && SessOk(s) && Proper(h, q)
    ensures var t := Answer(h, chunk, block, s, q);
      Along(Serve(h, chunk, s, LineOf(q) + "\n" + (BodyOf(h, s, block, q) + tail)), t.out, Serve(h, chunk, t.sess, tail))
  {
    var line := LineOf(q);
    ReadLineIs(line, BodyOf(h, s, block, q) + tail, LINE_MAX, "");
    assert "" + line == line;
    TakesItsOwn(h, chunk, block, s, q, tail);
  }

  // The client's side.

  lemma LineRead(reply: string, rest: string)
    requires Plain(reply) && |reply| < LINE_MAX
    ensures ReadLine(reply + "\n" + rest, LINE_MAX, "") == (Got(reply), rest)
  {
    ReadLineIs(reply, rest, LINE_MAX, "");
    assert "" + reply == reply;
  }

  lemma GetRead(h: Host, chunk: nat, s: Sess, path: string, rest: string)
    requires 1 <= chunk <= FRAME_MAX
    ensures var input := Get(h, chunk, s, path, "").out + rest; var (line, after) := ReadLine(input, LINE_MAX, "");
      if line == Got("OK") then Transfer.Receive(after, LINE_MAX, 0, |after|, "").rest == rest else after == rest
  {
    var name := h.at(s.dir, path);
    if path == "" {
      LineRead("ERR 400 missing path", rest);
    } else if name !in s.store {
      LineRead("ERR 404 no such file", rest);
    } else {
      FileRead(s.store[name], chunk, rest);
    }
  }

  lemma UploadRead(h: Host, block: nat, s: Sess, path: string, data: string, rest: string)
    requires 1 <= block <= FRAME_MAX && Proper(h, Upload(path, data))
    ensures AfterReply(Upload(path, data), Put(h, s, path, BodyOf(h, s, block, Upload(path, data))).out + rest) == rest
  {
    if h.creatable(h.at(s.dir, path)) {
      var wire := Transfer.FileWire(data, 0, block);
      var r := Transfer.Receive(wire, Transfer.HDR_MAX, h.cap, h.disk, "");
      StoredWhole(h, block, data);
      Transfer.ClientSeesVerdict(r, rest);
      Rejoin("OK\n", Transfer.PutVerdict(r).0, "\n", rest);
    } else {
      LineRead("ERR 404 cannot create", rest);
    }
  }

  lemma StoredWhole(h: Host, block: nat, data: string)
    requires 1 <= block <= FRAME_MAX && |data| <= h.disk && (h.cap == 0 || |data| <= h.cap)
    ensures Transfer.Receive(Transfer.FileWire(data, 0, block), Transfer.HDR_MAX, h.cap, h.disk, "") == Transfer.Complete(data, "")
  {
    Transfer.TransferIsIdentity(data, 0, block, Transfer.HDR_MAX, h.cap, h.disk, "");
    assert data[..0] == "" && Transfer.FileWire(data, 0, block) + "" == Transfer.FileWire(data, 0, block);
  }

  lemma Rejoin(a: string, b: string, c: string, d: string)
    ensures (a + (b + c)) + d == a + (b + c + d)
  {
  }

  lemma StatIsLine(s: Sess)
    requires SessOk(s)
    ensures Plain(Stat(s)) && |Stat(s)| < LINE_MAX
  {
    if s.res.valid {
      Transfer.ShortLength(s.res.id);
      var p := Print(s.res.id);
      assert forall c :: c in Stat(s) ==> c in "OK result " || c in p;
    }
  }

  lemma EnvReplyIsLine(env: seq<Env>, arg: Option<string>)
    ensures var reply := SetEnv(env, arg).1; Plain(reply) && |reply| < LINE_MAX
  {
  }

  lemma LineReplyRead(h: Host, chunk: nat, s: Sess, text: string, rest: string)
    requires 1 <= chunk <= FRAME_MAX && SessOk(s) && Proper(h, Line(text))
    ensures AfterReply(Line(text), Answer(h, chunk, 1, s, Line(text)).out + rest) == rest
  {
    var c := Split(text);
    match VerbOf(c.verb)
    case STAT => StatIsLine(s); LineRead(Stat(s), rest);
    case ENV => EnvReplyIsLine(s.env, c.arg); LineRead(SetEnv(s.env, c.arg).1, rest);
    case RUN => RunRead(h, chunk, s, c.arg, rest);
    case RESULT => ResultRead(h, chunk, s, c.arg, rest);
    case GET => GetRead(h, chunk, s, Default(c.arg), rest);
    case PING => OkRead(rest);
    case CWD => OkRead(rest); NoDirectoryRead(rest);
    case RUNI => NotSupportedRead(rest);
    case UNKNOWN => UnknownRead(rest);
  }

  // The fixed one-line answers.

  lemma OkRead(rest: string)
    ensures ReadLine("OK" + "\n" + rest, LINE_MAX, "") == (Got("OK"), rest)
  {
    LineRead("OK", rest);
  }

  lemma NoDirectoryRead(rest: string)
    ensures ReadLine("ERR 404 no such directory" + "\n" + rest, LINE_MAX, "").1 == rest
  {
    LineRead("ERR 404 no such directory", rest);
  }

  lemma NotSupportedRead(rest: string)
    ensures ReadLine("ERR 501 not supported" + "\n" + rest, LINE_MAX, "").1 == rest
  {
    LineRead("ERR 501 not supported", rest);
  }

  lemma UnknownRead(rest: string)
    ensures ReadLine("ERR 500 unknown command" + "\n" + rest, LINE_MAX, "").1 == rest
  {
    LineRead("ERR 500 unknown command", rest);
  }

  lemma NoCommandRead(rest: string)
    ensures Output.Consume("ERR 400 missing command" + "\n" + rest).rest == rest
  {
    ErrorRelayed("ERR 400 missing command", rest);
  }

  lemma ExecFailedRead(rest: string)
    ensures Output.Consume("ERR 500 exec failed" + "\n" + rest).rest == rest
  {
    ErrorRelayed("ERR 500 exec failed", rest);
  }

  lemma RunRead(h: Host, chunk: nat, s: Sess, arg: Option<string>, rest: string)
    requires 1 <= chunk <= FRAME_MAX
    ensures Output.Consume(JobCommand(h, chunk, s, RUN, arg, "").out + rest).rest == rest
  {
    NoCommandRead(rest);
    if arg.Some? {
      var exec := h.run(s.dir, s.env, arg.value, s.store).0;
      if exec.ExecFailed? { ExecFailedRead(rest); } else { CapturedRelayed(h, chunk, exec.files, exec.code, rest); }
    }
  }

  lemma ResultRead(h: Host, chunk: nat, s: Sess, arg: Option<string>, rest: string)
    requires 1 <= chunk <= FRAME_MAX
    ensures Output.Consume(Result(h, chunk, s, arg, "").out + rest).rest == rest
  {
    ErrorRelayed("ERR 404 no such result", rest);
    CapturedRelayed(h, chunk, s.capture, s.res.code, rest);
  }

  lemma {:induction false} ClientInStep(h: Host, chunk: nat, block: nat, s: Sess, qs: seq<Request>, rest: string)
    requires 1 <= chunk <= FRAME_MAX && 1 <= block <= FRAME_MAX && SessOk(s) && forall q :: q in qs ==> Proper(h, q)
    ensures AfterReplies(qs, Answers(h, chunk, block, s, qs).0 + rest) == rest
    decreases |qs|
  {
    if qs == [] {
      assert "" + rest == rest;
    } else {
      var q, t := qs[0], Answer(h, chunk, block, s, qs[0]);
      assert q in qs;
      TakesItsOwn(h, chunk, block, s, q, "");
      var more := Answers(h, chunk, block, t.sess, qs[1..]).0;
      ClientInStep(h, chunk, block, t.sess, qs[1..], rest);
      Assoc(t.out, more, rest);
      ReplyRead(h, chunk, block, s, q, more + rest);
    }
  }

  lemma ReplyRead(h: Host, chunk: nat, block: nat, s: Sess, q: Request, rest: string)
    requires 1 <= chunk <= FRAME_MAX && 1 <= block <= FRAME_MAX && SessOk(s) && Proper(h, q)
    ensures AfterReply(q, Answer(h, chunk, block, s, q).out + rest) == rest
  {
    match q
    case Line(text) => LineReplyRead(h, chunk, s, text, rest);
    case Upload(path, data) =>
      SplitPut(path);
      UploadRead(h, block, s, path, data, rest);
  }

  /**
    Both ends stay in step over every conversation: whatever list of requests a client
    pipelines in an authenticated session, with any block sizes and any bytes on either
    side after them, the daemon has taken exactly the requests and the client, reading
    the daemon's output, has taken exactly the answers.
  */
  lemma EndsInStep(h: Host, chunk: nat, block: nat, s: Sess, qs: seq<Request>, rest: string)
    requires 1 <= chunk <= FRAME_MAX && 1 <= block <= FRAME_MAX && SessOk(s) && forall q :: q in qs ==> Proper(h, q)
    ensures var (_, s1) := Answers(h, chunk, block, s, qs);
      var all, last := Serve(h, chunk, s, Sent(h, chunk, block, s, qs) + rest), Serve(h, chunk, s1, rest);
      all.sess == last.sess && all.rest == last.rest && AfterReplies(qs, all.out) == last.out
  {
    DaemonInStep(h, chunk, block, s, qs, rest);
    var s1 := Answers(h, chunk, block, s, qs).1;
    ClientInStep(h, chunk, block, s, qs, Serve(h, chunk, s1, rest).out);
  }

  // ---------------------------------------------------------------- what each line does

  lemma SplitLine(verb: string, arg: string)
    requires ' ' !in verb
    ensures Split(verb + " " + arg) == Command(verb, Some(arg)) && Split(verb) == Command(verb, None)
  {
    FindIs(verb, " " + arg, ' ');
    var line := verb + " " + arg;
    assert line == verb + (" " + arg) && line[..|verb|] == verb && line[|verb| + 1..] == arg;
    NotFound(verb, ' ');
    assert verb[..|verb|] == verb;
  }

  lemma VerbLine(h: Host, chunk: nat, s: Sess, verb: string, arg: string, v: Verb, rest: string)
    requires 1 <= chunk && s.authed && ' ' !in verb && v == VerbOf(verb)
    ensures Respond(h, chunk, s, verb + " " + arg, rest) == Act(h, chunk, s, v, Some(arg), rest)
    ensures Respond(h, chunk, s, verb, rest) == Act(h, chunk, s, v, None, rest)
  {
    SplitLine(verb, arg);
  }

  lemma {:induction false} NotFound(s: string, c: char)
    requires c !in s
    ensures Find(s, c) == |s|
  {
    if s != "" { NotFound(s[1..], c); }
  }

  /** Every file but one is as it was. */
  ghost predicate OnlyAt(before: Store, after: Store, name: string) {
    forall n :: n != name ==> (n in after <==> n in before) && (n in before ==> after[n] == before[n])
  }

  /**
    PUT, whatever bytes follow the line: a complete upload is what its path then holds, and
    after any other there is no file at the path; no other file is touched, nor anything
    else of the session, which ends exactly when the transfer breaks off.
  */
  lemma PutStores(h: Host, chunk: nat, s: Sess, path: string, rest: string)
    requires 1 <= chunk && s.authed && path != "" && h.creatable(h.at(s.dir, path))
    ensures var t, name := Respond(h, chunk, s, "PUT " + path, rest), h.at(s.dir, path);
      var r := Transfer.Receive(rest, Transfer.HDR_MAX, h.cap, h.disk, "");
      && t.sess == s.(store := t.sess.store) && OnlyAt(s.store, t.sess.store, name)
      && (name in t.sess.store <==> r.Complete?) && (r.Complete? ==> t.sess.store[name] == r.content)
      && t.rest == r.rest && (t.over <==> r.Broken?)
  {
    PutLine(h, chunk, s, path, rest);
  }

  /** A file sent with PUT is then at its path, every byte of it and its length told, exactly when the cap and the space allow it; otherwise no file is there. */
  lemma UploadKept(h: Host, chunk: nat, block: nat, s: Sess, path: string, data: string, rest: string)
    requires 1 <= chunk && 1 <= block <= FRAME_MAX && s.authed && path != "" && h.creatable(h.at(s.dir, path))
    ensures var t, name := Respond(h, chunk, s, "PUT " + path, Transfer.FileWire(data, 0, block) + rest), h.at(s.dir, path);
      if (h.cap == 0 || |data| <= h.cap) && |data| <= h.disk
      then t == Turn("OK\n" + ("OK " + Print(|data|) + "\n"), s.(store := s.store[name := data]), rest, false)
      else name !in t.sess.store && OnlyAt(s.store, t.sess.store, name) && !t.over
  {
    var input := Transfer.FileWire(data, 0, block) + rest;
    PutLine(h, chunk, s, path, input);
    UploadSays(h, s, path, data, input, block, rest);
  }

  lemma PutLine(h: Host, chunk: nat, s: Sess, path: string, input: string)
    requires 1 <= chunk && s.authed
    ensures Respond(h, chunk, s, "PUT " + path, input) == Put(h, s, path, input)
  {
    VerbLine(h, chunk, s, "PUT", path, PUT, input);
    assert "PUT" + " " + path == "PUT " + path;
  }

  lemma UploadSays(h: Host, s: Sess, path: string, data: string, input: string, block: nat, rest: string)
    requires 1 <= block <= FRAME_MAX && path != "" && h.creatable(h.at(s.dir, path)) && input == Transfer.FileWire(data, 0, block) + rest
    ensures var t, name := Put(h, s, path, input), h.at(s.dir, path);
      if (h.cap == 0 || |data| <= h.cap) && |data| <= h.disk
      then t == Turn("OK\n" + ("OK " + Print(|data|) + "\n"), s.(store := s.store[name := data]), rest, false)
      else name !in t.sess.store && OnlyAt(s.store, t.sess.store, name) && !t.over
  {
    Transfer.UploadStoresFile(data, block, h.cap, h.disk, rest);
  }

  /** A path that cannot be written, or none: an error line, and nothing is read or done. */
  lemma PutRefused(h: Host, chunk: nat, s: Sess, path: string, rest: string)
    requires 1 <= chunk && s.authed && (path == "" || !h.creatable(h.at(s.dir, path)))
    ensures Respond(h, chunk, s, "PUT " + path, rest) == Turn(if path == "" then "ERR 400 missing path\n" else "ERR 404 cannot create\n", s, rest, false)
  {
    PutLine(h, chunk, s, path, rest);
    assert "ERR 400 missing path" + "\n" == "ERR 400 missing path\n" && "ERR 404 cannot create" + "\n" == "ERR 404 cannot create\n";
  }

  /** GET changes nothing, and the client gets exactly the file that is at the path, or an error line. */
  lemma GetDelivers(h: Host, chunk: nat, s: Sess, path: string, rest: string, more: string)
    requires 1 <= chunk <= FRAME_MAX && s.authed && path != ""
    ensures var t, name := Respond(h, chunk, s, "GET " + path, rest), h.at(s.dir, path); var (line, after) := ReadLine(t.out + more, LINE_MAX, "");
      && t.sess == s && t.rest == rest && !t.over
      && if name in s.store then line == Got("OK") && Transfer.Receive(after, LINE_MAX, 0, |after|, "") == Transfer.Complete(s.store[name], more)
         else line == Got("ERR 404 no such file") && after == more
  {
    VerbLine(h, chunk, s, "GET", path, GET, rest);
    assert "GET" + " " + path == "GET " + path;
    GetSays(h, chunk, s, path, rest, more);
  }

  lemma GetSays(h: Host, chunk: nat, s: Sess, path: string, rest: string, more: string)
    requires 1 <= chunk <= FRAME_MAX && path != ""
    ensures var t, name := Get(h, chunk, s, path, rest), h.at(s.dir, path); var (line, after) := ReadLine(t.out + more, LINE_MAX, "");
      && t.sess == s && t.rest == rest && !t.over
      && if name in s.store then line == Got("OK") && Transfer.Receive(after, LINE_MAX, 0, |after|, "") == Transfer.Complete(s.store[name], more)
         else line == Got("ERR 404 no such file") && after == more
  {
    var name := h.at(s.dir, path);
    if name in s.store { FileRead(s.store[name], chunk, more); } else { LineRead("ERR 404 no such file", more); }
  }

  lemma FileRead(data: string, chunk: nat, more: string)
    requires 1 <= chunk <= FRAME_MAX
    ensures var (line, after) := ReadLine("OK\n" + Transfer.FileWire(data, 0, chunk) + more, LINE_MAX, "");
      line == Got("OK") && Transfer.Receive(after, LINE_MAX, 0, |after|, "") == Transfer.Complete(data, more)
  {
    var wire := Transfer.FileWire(data, 0, chunk);
    Assoc("OK\n", wire, more);
    Transfer.WireHoldsData(data, 0, chunk);
    Transfer.DownloadIsFile(data, chunk, |wire + more|, more);
  }

  /** One line of a session, and then the rest of it. */
  lemma ServeLine(h: Host, chunk: nat, s: Sess, line: string, rest: string)
    requires 1 <= chunk && Plain(line) && |line| < LINE_MAX
    ensures var t := Respond(h, chunk, s, line, rest); !t.over ==> Along(Serve(h, chunk, s, line + "\n" + rest), t.out, Serve(h, chunk, t.sess, t.rest))
  {
    LineRead(line, rest);
  }

  /**
    There and back: a file sent with PUT and asked for with GET in the same session comes
    back to the client byte for byte, after the daemon's two lines about the upload.
  */
  lemma PutThenGet(h: Host, chunk: nat, block: nat, s: Sess, path: string, data: string, rest: string)
    requires 1 <= chunk <= FRAME_MAX && 1 <= block <= FRAME_MAX && s.authed && path != "" && h.creatable(h.at(s.dir, path))
    requires Plain(path) && |path| < LINE_MAX - 4 && (h.cap == 0 || |data| <= h.cap) && |data| <= h.disk < 0x8000_0000_0000_0000
    ensures var name := h.at(s.dir, path); var s1 := s.(store := s.store[name := data]);
      var all := Serve(h, chunk, s, "PUT " + path + "\n" + (Transfer.FileWire(data, 0, block) + ("GET " + path + "\n" + rest)));
      var (first, a) := ReadLine(all.out, LINE_MAX, ""); var (second, b) := ReadLine(a, LINE_MAX, ""); var (third, c) := ReadLine(b, LINE_MAX, "");
      && first == third == Got("OK") && second == Got("OK " + Print(|data|))
      && Transfer.Receive(c, LINE_MAX, 0, |c|, "") == Transfer.Complete(data, Serve(h, chunk, s1, rest).out)
      && all.sess == Serve(h, chunk, s1, rest).sess
  {
    var name, wire := h.at(s.dir, path), Transfer.FileWire(data, 0, block);
    var s1 := s.(store := s.store[name := data]);
    var get := "GET " + path + "\n" + rest;
    PlainRequest("PUT ", path);
    PlainRequest("GET ", path);
    UploadKept(h, chunk, block, s, path, data, get);
    ServeLine(h, chunk, s, "PUT " + path, wire + get);
    ServeLine(h, chunk, s1, "GET " + path, rest);
    var t := Respond(h, chunk, s1, "GET " + path, rest);
    var more := Serve(h, chunk, s1, rest).out;
    GetDelivers(h, chunk, s1, path, rest, more);
    TwoLines(|data|, t.out + more);
  }

  lemma PlainRequest(verb: string, path: string)
    requires Plain(verb) && Plain(path)
    ensures Plain(verb + path)
  {
  }

  lemma TwoLines(n: nat, more: string)
    requires n < 0x8000_0000_0000_0000
    ensures var (first, a) := ReadLine("OK\n" + ("OK " + Print(n) + "\n") + more, LINE_MAX, ""); var (second, b) := ReadLine(a, LINE_MAX, "");
      first == Got("OK") && second == Got("OK " + Print(n)) && b == more
  {
    var l := "OK " + Print(n);
    Transfer.ShortLength(n);
    assert Plain(l) by { assert forall c :: c in l ==> c in "OK " || c in Print(n); }
    Assoc("OK\n", l + "\n", more);
    Transfer.OkReads(l + "\n" + more);
    LineRead(l, more);
  }

  /** What the client of RUN or RESULT makes of the answer: the code, and the two files as far as the cap goes. */
  ghost predicate Relayed(h: Host, chunk: nat, files: Async.Files, code: int, got: Output.Streamed, more: string)
    requires 1 <= chunk
  {
    var ps := Output.ResultPieces(files.out, files.err, chunk, h.cap);
    && got == Output.Streamed(code % 256, Output.Text(ps, Output.Out), Output.Text(ps, Output.Err), more)
    && (h.cap == 0 || |files.out| + |files.err| <= h.cap ==> got.out == files.out && got.err == files.err)
  }

  lemma CapturedRelayed(h: Host, chunk: nat, files: Async.Files, code: int, more: string)
    requires 1 <= chunk <= FRAME_MAX
    ensures Relayed(h, chunk, files, code, Output.Consume(Captured(h, chunk, files, code) + more), more)
  {
    var w, x := Output.Wire(Output.ResultPieces(files.out, files.err, chunk, h.cap)), Output.ExitLine(code);
    Assoc(w, x, more);
    Output.ResultArrives(files.out, files.err, chunk, h.cap, code, more);
  }

  /** A line that is no frame: the client's stream ends there with -1. */
  lemma ErrorRelayed(reply: string, more: string)
    requires Plain(reply) && |reply| < LINE_MAX && "ERR" <= reply
    ensures Output.Consume(reply + "\n" + more) == Output.Streamed(-1, "", "", more)
  {
    LineRead(reply, more);
    assert At(reply, 0) == 'E' && At(reply, 1) == 'R';
  }

  /**
    RUN runs the command in the session's directory with its variables: the client gets its
    exit code and output, the files are as it left them, a held result is given up, and
    nothing else of the session changes. When it cannot be run the client sees -1.
  */
  lemma RunReports(h: Host, chunk: nat, s: Sess, cmd: string, rest: string, more: string)
    requires 1 <= chunk <= FRAME_MAX && s.authed
    ensures var (exec, store) := h.run(s.dir, s.env, cmd, s.store); var t := Respond(h, chunk, s, "RUN " + cmd, rest);
      var got := Output.Consume(t.out + more);
      && t.sess == s.(store := store, res := s.res.(valid := false)) && t.rest == rest && !t.over
      && if exec.Exited? then Relayed(h, chunk, exec.files, exec.code, got, more) else got == Output.Streamed(-1, "", "", more)
  {
    VerbLine(h, chunk, s, "RUN", cmd, RUN, rest);
    assert "RUN" + " " + cmd == "RUN " + cmd;
    RunSays(h, chunk, s, cmd, rest, more);
  }

  lemma RunSays(h: Host, chunk: nat, s: Sess, cmd: string, rest: string, more: string)
    requires 1 <= chunk <= FRAME_MAX
    ensures var (exec, store) := h.run(s.dir, s.env, cmd, s.store); var t := Run(h, chunk, s, cmd, rest);
      var got := Output.Consume(t.out + more);
      && t.sess == s.(store := store, res := s.res.(valid := false)) && t.rest == rest && !t.over
      && if exec.Exited? then Relayed(h, chunk, exec.files, exec.code, got, more) else got == Output.Streamed(-1, "", "", more)
  {
    var exec := h.run(s.dir, s.env, cmd, s.store).0;
    if exec.Exited? { CapturedRelayed(h, chunk, exec.files, exec.code, more); } else { ErrorRelayed("ERR 500 exec failed", more); }
  }

  /** RUNA accepts a job with this command and the variables as they are, under the next number, gives up a held result and ends the session. */
  lemma RunaAccepts(h: Host, chunk: nat, s: Sess, cmd: string, rest: string)
    requires 1 <= chunk && s.authed
    ensures var t, id := Respond(h, chunk, s, "RUNA " + cmd, rest), if s.counter >= 32767 then 1 else s.counter + 1;
      t == Turn("OK " + Print(id) + "\n", s.(counter := id, job := Job(true, id, cmd, s.env), res := s.res.(valid := false)), rest, true)
  {
    VerbLine(h, chunk, s, "RUNA", cmd, RUNA, rest);
    assert "RUNA" + " " + cmd == "RUNA " + cmd;
  }

  /** RESULT relays the held result's code and capture files, under its own number only, and keeps it. */
  lemma ResultDelivers(h: Host, chunk: nat, s: Sess, arg: string, rest: string, more: string)
    requires 1 <= chunk <= FRAME_MAX && s.authed
    ensures var t := Respond(h, chunk, s, "RESULT " + arg, rest); var got := Output.Consume(t.out + more);
      && t.sess == s && t.rest == rest && !t.over
      && if s.res.valid && s.res.id == Atol(arg) then Relayed(h, chunk, s.capture, s.res.code, got, more) else got == Output.Streamed(-1, "", "", more)
  {
    VerbLine(h, chunk, s, "RESULT", arg, RESULT, rest);
    assert "RESULT" + " " + arg == "RESULT " + arg;
    ResultSays(h, chunk, s, arg, rest, more);
  }

  lemma ResultSays(h: Host, chunk: nat, s: Sess, arg: string, rest: string, more: string)
    requires 1 <= chunk <= FRAME_MAX
    ensures var t := Result(h, chunk, s, Some(arg), rest); var got := Output.Consume(t.out + more);
      && t.sess == s && t.rest == rest && !t.over
      && if s.res.valid && s.res.id == Atol(arg) then Relayed(h, chunk, s.capture, s.res.code, got, more) else got == Output.Streamed(-1, "", "", more)
  {
    if s.res.valid && s.res.id == Atol(arg) { CapturedRelayed(h, chunk, s.capture, s.res.code, more); } else { ErrorRelayed("ERR 404 no such result", more); }
  }

  /** STAT names the held result, if there is one. */
  lemma StatTells(h: Host, chunk: nat, s: Sess, rest: string)
    requires 1 <= chunk && s.authed
    ensures Respond(h, chunk, s, "STAT", rest) == Turn(if s.res.valid then "OK result " + Print(s.res.id) + "\n" else "OK idle\n", s, rest, false)
  {
    VerbLine(h, chunk, s, "STAT", "", STAT, rest);
    assert "OK idle" + "\n" == "OK idle\n";
  }

  /** CWD changes the directory to where the system goes from the one before, and nothing else; or it changes nothing. */
  lemma CwdMoves(h: Host, chunk: nat, s: Sess, arg: string, rest: string)
    requires 1 <= chunk && s.authed
    ensures var t := Respond(h, chunk, s, "CWD " + arg, rest);
      match h.enter(s.dir, arg)
      case None => t == Turn("ERR 404 no such directory\n", s, rest, false)
      case Some(d) => t == Turn("OK\n", s.(dir := d), rest, false)
  {
    VerbLine(h, chunk, s, "CWD", arg, CWD, rest);
    assert "CWD" + " " + arg == "CWD " + arg;
    assert "OK" + "\n" == "OK\n" && "ERR 404 no such directory" + "\n" == "ERR 404 no such directory\n";
  }

  /** ENV sets a variable for the commands to come, or refuses with a line of its own; nothing else changes. */
  lemma EnvLine(h: Host, chunk: nat, s: Sess, name: string, val: string, rest: string)
    requires 1 <= chunk && s.authed && TableOk(s.env) && '=' !in name
    ensures var t := Respond(h, chunk, s, "ENV " + (name + "=" + val), rest);
      && t.sess == s.(env := t.sess.env) && TableOk(t.sess.env) && t.rest == rest && !t.over
      && (if IsName(name) && |name| < 64 && |val| < 192 && (name in Vars(s.env) || |s.env| < 32)
          then Vars(t.sess.env) == Vars(s.env)[name := val] && t.out == "OK" + "\n"
          else t.sess == s && t.out in {"ERR 431 env too long" + "\n", "ERR 431 too many env" + "\n"})
  {
    var arg := name + "=" + val;
    VerbLine(h, chunk, s, "ENV", arg, ENV, rest);
    assert "ENV" + " " + arg == "ENV " + arg;
    EnvSays(s.env, name, val);
    SetEnvSets(s.env, name, val);
  }

  lemma EnvSays(env: seq<Env>, name: string, val: string)
    requires TableOk(env) && '=' !in name
    ensures var (env1, reply) := SetEnv(env, Some(name + "=" + val)); reply != "OK" ==> env1 == env && reply in {"ERR 431 env too long", "ERR 431 too many env"}
  {
    SetEnvIs(env, name, val);
  }

  /** PING says OK, and that is all. */
  lemma PingLine(h: Host, chunk: nat, s: Sess, rest: string)
    requires 1 <= chunk && s.authed
    ensures Respond(h, chunk, s, "PING", rest) == Turn("OK" + "\n", s, rest, false)
  {
    VerbLine(h, chunk, s, "PING", "", PING, rest);
  }

  /** QUIT says OK and ends the session. */
  lemma QuitLine(h: Host, chunk: nat, s: Sess, rest: string)
    requires 1 <= chunk && s.authed
    ensures Respond(h, chunk, s, "QUIT", rest) == Turn("OK" + "\n", s, rest, true)
  {
    VerbLine(h, chunk, s, "QUIT", "", QUIT, rest);
  }

  /** RUN and RUNA without a command do nothing. */
  lemma NoCommandLine(h: Host, chunk: nat, s: Sess, verb: string, rest: string)
    requires 1 <= chunk && s.authed && (verb == "RUN" || verb == "RUNA")
    ensures Respond(h, chunk, s, verb, rest) == Turn("ERR 400 missing command" + "\n", s, rest, false)
  {
    VerbLine(h, chunk, s, verb, "", if verb == "RUN" then RUN else RUNA, rest);
  }

  /** The eleven verbs are all there are. */
  lemma UnknownLine(h: Host, chunk: nat, s: Sess, line: string, rest: string)
    requires 1 <= chunk && s.authed
    requires Split(line).verb !in {"PING", "STAT", "CWD", "ENV", "RUN", "RUNA", "RESULT", "RUNI", "PUT", "GET", "QUIT"}
    ensures Respond(h, chunk, s, line, rest) == Turn("ERR 500 unknown command" + "\n", s, rest, false)
  {
    UnknownVerb(Split(line).verb);
  }

  lemma UnknownVerb(v: string)
    requires v !in {"PING", "STAT", "CWD", "ENV", "RUN", "RUNA", "RESULT", "RUNI", "PUT", "GET", "QUIT"}
    ensures VerbOf(v) == UNKNOWN
  {
  }

  /**
    A session starts with no login and no variables, whatever the one before it set: after
    AUTH its first command is run with none, in the directory and on the files as they were
    left.
  */
  lemma FirstRun(h: Host, chunk: nat, s: Sess, cmd: string, rest: string, more: string)
    requires 1 <= chunk <= FRAME_MAX
    ensures var a := Respond(h, chunk, Fresh(s), "AUTH " + h.token, "");
      var (exec, store) := h.run(s.dir, [], cmd, s.store); var t := Respond(h, chunk, a.sess, "RUN " + cmd, rest);
      var got := Output.Consume(t.out + more);
      && !a.over && t.sess.store == store
      && if exec.Exited? then Relayed(h, chunk, exec.files, exec.code, got, more) else got == Output.Streamed(-1, "", "", more)
  {
    SplitLine("AUTH", h.token);
    assert "AUTH" + " " + h.token == "AUTH " + h.token;
    AuthTurn(h, Fresh(s), Command("AUTH", Some(h.token)), "");
    RunReports(h, chunk, Fresh(s).(authed := true), cmd, rest, more);
  }

  /** A session ends without more ado when the stream does, and with an error line when a line of 1024 characters or more comes. */
  lemma NoLineEnds(h: Host, chunk: nat, s: Sess, t: string, tail: string)
    requires 1 <= chunk && '\n' !in t && (tail == "" || tail[0] == '\n')
    ensures var all := Serve(h, chunk, s, t + tail);
      && (|NoCr(t)| >= 1024 ==> all.sess == s && all.out == "ERR 400 protocol violation\n")
      && (|NoCr(t)| < 1024 && tail == "" ==> all == Served("", s, ""))
  {
    LineIs(t, tail, LINE_MAX, "");
    assert "" + NoCr(t) == NoCr(t);
  }

  /**
    A job from end to end: RUNA accepts it, it runs between the sessions, and in the next
    session, whoever has it, STAT names its number and RESULT under that number gives its
    code and output; if it could not be run there is no result.
  */
  lemma JobThenResult(h: Host, chunk: nat, s: Sess, cmd: string, exec: Async.Exec, after: Store, rest: string, more: string)
    requires 1 <= chunk <= FRAME_MAX && s.authed && 0 <= s.counter <= 32767
    ensures var id := if s.counter == 32767 then 1 else s.counter + 1;
      var s1 := AfterJob(Respond(h, chunk, s, "RUNA " + cmd, rest).sess, exec, after); var s2 := Fresh(s1).(authed := true);
      var status := Respond(h, chunk, s2, "STAT", "").out; var got := Output.Consume(Respond(h, chunk, s2, "RESULT " + Print(id), "").out + more);
      && s1.store == after
      && if exec.Exited? then status == "OK result " + Print(id) + "\n" && Relayed(h, chunk, exec.files, exec.code, got, more)
         else status == "OK idle\n" && got == Output.Streamed(-1, "", "", more)
  {
    RunaAccepts(h, chunk, s, cmd, rest);
    var id := if s.counter == 32767 then 1 else s.counter + 1;
    var s1 := AfterJob(Respond(h, chunk, s, "RUNA " + cmd, rest).sess, exec, after);
    var s2 := Fresh(s1).(authed := true);
    AtolPrint(id, []);
    assert Print(id) + [] == Print(id);
    StatTells(h, chunk, s2, "");
    ResultDelivers(h, chunk, s2, Print(id), "", more);
  }

  // ---------------------------------------------------------------- control sessions

  /** What a session opened while a job runs answers; nothing but this can be had of it. */
  function ControlReply(verb: Verb, busy: int): string {
    match verb
    case PING | QUIT => "OK"
    case STAT => "OK busy " + Print(busy)
    case _ => "ERR 409 busy"
  }

  function Control(h: Host, busy: int, authed: bool, input: string): (string, string)
    decreases |input|
  {
    var (line, rest) := ReadLine(input, LINE_MAX, "");
    if !line.Got? then ("", rest)
    else
      var c := Split(line.text);
      if !authed && c != Command("AUTH", Some(h.token)) then ((if c.verb == "QUIT" then "OK" else "ERR 401 auth failed") + "\n", rest)
      else
        var reply := if authed then ControlReply(VerbOf(c.verb), busy) else "OK";
        if authed && VerbOf(c.verb).QUIT? then (reply + "\n", rest)
        else
          var (more, left) := Control(h, busy, true, rest);
          (reply + "\n" + more, left)
  }

  method CtlSession(ch: Chan, h: Host, busy: int)
    modifies ch
    ensures ch.room > 0 ==>
      (ch.outgoing, ch.incoming) == (old(ch.outgoing) + (h.greeting + "\n") + Control(h, busy, false, old(ch.incoming)).0,
                                     Control(h, busy, false, old(ch.incoming)).1)
  {
    var authed := false;
    var ok := ch.PutLine(h.greeting);
    if !ok { return; }
    ghost var start, done, input := ch.outgoing, "", ch.incoming;
    assert start + "" == start;
    assert "" + Control(h, busy, false, input).0 == Control(h, busy, false, input).0;
    while true
      invariant ch.room > 0 ==> start == old(ch.outgoing) + (h.greeting + "\n") && input == old(ch.incoming)
      invariant ch.room > 0 ==> ch.outgoing == start + done && ControlAlong(h, busy, input, done, authed, ch.incoming)
      decreases |ch.incoming|
    {
      var r := ch.GetLine(LINE_MAX);
      if !r.Got? {
        assert done + "" == done;
        return;
      }
      var c := Split(r.text);
      var over, reply := false, "OK";
      if !authed {
        over := c != Command("AUTH", Some(h.token));
        if over && c.verb != "QUIT" { reply := "ERR 401 auth failed"; }
        authed := true;
      } else {
        match VerbOf(c.verb) {
          case PING => reply := "OK";
          case STAT => reply := "OK busy " + Print(busy);
          case QUIT => over := true;
          case _ => reply := "ERR 409 busy";
        }
      }
      ok := ch.PutLine(reply);
      Assoc(start, done, reply + "\n");
      if over || !ok { return; }
      Assoc(done, reply + "\n", Control(h, busy, true, ch.incoming).0);
      done := done + (reply + "\n");
    }
  }

  ghost predicate ControlAlong(h: Host, busy: int, input: string, done: string, authed: bool, incoming: string) {
    var (all, left) := Control(h, busy, false, input); var (more, left') := Control(h, busy, authed, incoming);
    all == done + more && left == left'
  }

  /** A control session answers every line but QUIT with one line, and goes on. */
  lemma ControlOneLine(h: Host, busy: int, line: string, rest: string)
    requires Plain(line) && |line| < LINE_MAX && Split(line).verb != "QUIT"
    ensures var (more, left) := Control(h, busy, true, rest); var verb := Split(line).verb;
      Control(h, busy, true, line + "\n" + rest)
      == ((if verb == "PING" then "OK" else if verb == "STAT" then "OK busy " + Print(busy) else "ERR 409 busy") + "\n" + more, left)
  {
    LineRead(line, rest);
    ControlSays(Split(line).verb, busy);
  }

  lemma ControlSays(verb: string, busy: int)
    requires verb != "QUIT"
    ensures !VerbOf(verb).QUIT?
    ensures ControlReply(VerbOf(verb), busy) == if verb == "PING" then "OK" else if verb == "STAT" then "OK busy " + Print(busy) else "ERR 409 busy"
  {
  }

  /** Before that, the first line must be AUTH with the token; any other gets one line, and the control session is over. */
  lemma ControlNeedsToken(h: Host, busy: int, line: string, rest: string)
    requires Plain(line) && |line| < LINE_MAX
    ensures var all, c := Control(h, busy, false, line + "\n" + rest), Split(line); var (more, left) := Control(h, busy, true, rest);
      if c == Command("AUTH", Some(h.token)) then all == ("OK" + "\n" + more, left)
      else all == ((if c.verb == "QUIT" then "OK" else "ERR 401 auth failed") + "\n", rest)
  {
    LineRead(line, rest);
  }
}
