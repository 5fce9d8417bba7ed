/**
  Asynchronous jobs: RUNA, STAT and RESULT on the daemon, which serves one session at a
  time and runs the accepted job between sessions, and the polling loop of its clients.
*/
module Async {
  import opened Bytes
  import opened Decimal

  const JOB_MAX := 32767

  /** The two capture files. */
  datatype Files = Files(out: string, err: string)

  /** What running a job ends in: an exit code and the capture files it wrote, or no execution. */
  datatype Exec = Exited(code: int, files: Files) | ExecFailed(files: Files)

  datatype Job = Job(pending: bool, id: int, cmd: string)
  datatype Res = Res(valid: bool, id: int, code: int)

  /** Every job ever accepted, in order, and how it ended, once it has. */
  datatype Submission = Submission(cmd: string, end: Option<Exec>)

  datatype Phase = Accepting | InSession(authed: bool) | Closing

  datatype Daemon = Daemon(phase: Phase, counter: int, job: Job, res: Res, files: Files, history: seq<Submission>)

  datatype Event =
    | Accept                      // a session starts
    | Auth(good: bool)
    | Run                         // RUN or RUNI with a command: runs at once
    | Runa(cmd: string)           // accepted, and the session is over
    | Other                       // any command that leaves jobs and results alone
    | Close                       // the session ends
    | RunPending(exec: Exec)      // between sessions

  const Start := Daemon(Accepting, 0, Job(false, 0, ""), Res(false, 0, 0), Files("", ""), [])

  function NextId(counter: int): int { if counter + 1 > JOB_MAX then 1 else counter + 1 }

  /** One step of the daemon; an event out of place changes nothing. */
  function Next(d: Daemon, e: Event): Daemon {
    match e
    case Accept =>
      if d.phase.Accepting? then d.(phase := InSession(false), job := d.job.(pending := false)) else d
    case Auth(good) =>
      if d.phase == InSession(false) then d.(phase := if good then InSession(true) else Closing) else d
    case Run =>
      if d.phase == InSession(true) then d.(res := d.res.(valid := false)) else d
    case Runa(cmd) =>
      if d.phase == InSession(true) then
        d.(phase := Closing, counter := NextId(d.counter), job := Job(true, NextId(d.counter), cmd),
           res := d.res.(valid := false), history := d.history + [Submission(cmd, None)])
      else d
    case Other => d
    case Close =>
      if d.phase.InSession? then d.(phase := Closing) else d
    case RunPending(exec) =>
      if !d.phase.Closing? then d
      else if !d.job.pending then d.(phase := Accepting)
      else
        var last := |d.history| - 1;
        var h := if last >= 0 then d.history[last := d.history[last].(end := Some(exec))] else d.history;
        d.(phase := Accepting, job := d.job.(pending := false), files := exec.files, history := h,
           res := if exec.Exited? then Res(true, d.job.id, exec.code) else d.res.(valid := false))
  }

  function RunAll(d: Daemon, es: seq<Event>): Daemon {
    if es == [] then d else Next(RunAll(d, es[..|es| - 1]), es[|es| - 1])
  }

  function StatReply(d: Daemon): string {
    if d.res.valid then "OK result " + Print(d.res.id) else "OK idle"
  }

  /** The answer to RESULT: the capture files and the code, or 404. */
  function ResultReply(d: Daemon, id: int): Option<(Files, int)> {
    if !d.res.valid || d.res.id != id then None else Some((d.files, d.res.code % 256))
  }

  // ---------------------------------------------------------------- the daemon on its own

  /** The id of the `n`-th job accepted. */
  function IdOf(n: nat): int
    requires n > 0
  {
    (n - 1) % JOB_MAX + 1
  }

  /** While a result is held it is that of the last job accepted, and so are the capture files. */
  ghost predicate Inv(d: Daemon) {
    var n := |d.history|;
    && d.counter == (if n == 0 then 0 else IdOf(n))
    && (d.job.pending ==> n > 0 && d.job.id == IdOf(n) && d.phase.Closing? && d.history[n - 1].end == None)
    && (d.res.valid ==>
          && n > 0 && d.res.id == IdOf(n) && !d.job.pending
          && d.history[n - 1].end == Some(Exited(d.res.code, d.files)))
  }

  lemma NextIdIs(n: nat)
    ensures NextId(if n == 0 then 0 else IdOf(n)) == IdOf(n + 1)
  {
  }

  lemma NextInv(d: Daemon, e: Event)
    requires Inv(d)
    ensures Inv(Next(d, e))
  {
    NextIdIs(|d.history|);
  }

  lemma {:induction false} RunInv(es: seq<Event>)
    ensures Inv(RunAll(Start, es))
  {
    if es != [] {
      RunInv(es[..|es| - 1]);
      NextInv(RunAll(Start, es[..|es| - 1]), es[|es| - 1]);
    }
  }

  lemma IdsClash(k: nat, n: nat)
    requires 0 < k <= n
    ensures IdOf(k) == IdOf(n) <==> (n - k) % JOB_MAX == 0
    ensures n - k < JOB_MAX ==> (IdOf(k) == IdOf(n) <==> k == n)
  {
    var q, r := (n - 1) / JOB_MAX, (k - 1) / JOB_MAX;
    assert n - k == (q - r) * JOB_MAX + ((n - 1) % JOB_MAX - (k - 1) % JOB_MAX);
  }

  /**
    RESULT for the `k`-th job is answered exactly when a result is held and the job is
    the last one accepted or a multiple of 32767 older; what it gets is always the code
    and the captured output of the last job, so its own exactly when nothing was accepted
    since.
  */
  lemma ResultIsLastJob(es: seq<Event>, k: nat)
    requires var d := RunAll(Start, es); 0 < k <= |d.history|
    ensures var d := RunAll(Start, es); var n := |d.history|; var r := ResultReply(d, IdOf(k));
      && (r.Some? <==> d.res.valid && (n - k) % JOB_MAX == 0)
      && (r.Some? ==> exists code :: d.history[n - 1].end == Some(Exited(code, r.value.0)) && r.value.1 == code % 256)
      && (r.Some? && n - k < JOB_MAX ==> k == n)
  {
    RunInv(es);
    var d := RunAll(Start, es);
    IdsClash(k, |d.history|);
  }

  // ---------------------------------------------------------------- with its clients

  datatype Stage = Polling | Fetching | Gone | Done(code: int, got: Files, issued: nat)

  /** A client that submitted the `issue`-th job; `want` is the line it compares with, and later sends. */
  datatype Client = Client(issue: nat, id: int, want: string, stage: Stage)

  datatype System = System(daemon: Daemon, clients: map<nat, Client>)

  datatype Step =
    | Internal(e: Event)                        // the daemon's sessions and jobs, whoever they are with
    | Submit(c: nat, cmd: string, told: bool)   // RUNA by a client, which may miss the reply
    | Unreachable(c: nat)                       // connect or STAT failed: poll again
    | Refused(c: nat)                           // authentication failed
    | Stat(c: nat, busy: bool)                  // STAT answered, by an authenticated session or by a control session
    | Fetch(c: nat, broken: bool)               // RESULT sent in such a session; the answer may break off

  function Want(id: int): string { "OK result " + Print(id) }

  function Request(id: int): string { "RESULT " + Print(id) }

  /** The client's next move on a status line. */
  function OnStatus(cl: Client, line: string): Client {
    if line == cl.want then cl.(want := Request(cl.id), stage := Fetching)
    else if "OK busy" <= line then cl
    else cl.(stage := Gone)
  }

  /** The job number a RESULT line asks for. */
  function Asked(line: string): int {
    if "RESULT " <= line then Atol(line[7..]) else -1
  }

  /** The client after its fetch: it polls again when the answer breaks off or is no answer. */
  function OnAnswer(cl: Client, d: Daemon, broken: bool): Client {
    var r := ResultReply(d, Asked(cl.want));
    cl.(stage := if broken || r.None? then Polling else Done(r.value.1, r.value.0, |d.history|))
  }

  function Move(s: System, step: Step): System {
    var d := s.daemon;
    match step
    case Internal(e) => s.(daemon := Next(d, e))
    case Submit(c, cmd, told) =>
      if d.phase != InSession(true) then s
      else
        var d1 := Next(d, Runa(cmd));
        System(d1, if told then s.clients[c := Client(|d1.history|, d1.job.id, Want(d1.job.id), Polling)] else s.clients)
    case Unreachable(_) => s
    case Refused(c) =>
      if c in s.clients && s.clients[c].stage.Polling? then s.(clients := s.clients[c := s.clients[c].(stage := Gone)]) else s
    case Stat(c, busy) =>
      if c !in s.clients || !s.clients[c].stage.Polling? || !(busy || d.phase == InSession(true)) then s
      else
        var line := if busy then "OK busy " + Print(if d.job.pending then d.job.id else 0) else StatReply(d);
        s.(clients := s.clients[c := OnStatus(s.clients[c], line)])
    case Fetch(c, broken) =>
      if c !in s.clients || !s.clients[c].stage.Fetching? || !(broken || d.phase == InSession(true)) then s
      else s.(clients := s.clients[c := OnAnswer(s.clients[c], d, broken)])
  }

  function Play(steps: seq<Step>): System {
    if steps == [] then System(Start, map[]) else Move(Play(steps[..|steps| - 1]), steps[|steps| - 1])
  }

  /** A client knows its own job, and a code it was given within 32767 submissions is that job's own. */
  ghost predicate ClientOk(d: Daemon, cl: Client) {
    && 0 < cl.issue <= |d.history| && cl.id == IdOf(cl.issue)
    && (cl.want == Want(cl.id) || cl.want == Request(cl.id))
    && (cl.stage.Fetching? ==> cl.want == Request(cl.id))
    && (cl.stage.Done? && cl.stage.issued - cl.issue < JOB_MAX ==> Own(d.history[cl.issue - 1], cl.stage.code, cl.stage.got))
  }

  /** The code and output a client was given are those of this submission. */
  ghost predicate Own(s: Submission, code: int, got: Files) {
    s.end.Some? && s.end.value.Exited? && s.end.value.files == got && code == s.end.value.code % 256
  }

  ghost predicate SystemOk(s: System) {
    Inv(s.daemon) && forall c :: c in s.clients ==> ClientOk(s.daemon, s.clients[c])
  }

  /** Jobs once accepted stay in the history, and once ended stay as they ended. */
  ghost predicate Grows(d: Daemon, d1: Daemon) {
    && |d.history| <= |d1.history|
    && forall i :: 0 <= i < |d.history| ==> d.history[i].end.Some? ==> d1.history[i] == d.history[i]
  }

  lemma NextGrows(d: Daemon, e: Event)
    requires Inv(d)
    ensures Grows(d, Next(d, e))
  {
  }

  lemma ClientKeeps(d: Daemon, d1: Daemon, cl: Client)
    requires Grows(d, d1) && ClientOk(d, cl)
    ensures ClientOk(d1, cl)
  {
  }

  lemma AskedIs(id: int)
    ensures Asked(Request(id)) == id
    ensures Want(id) != Request(id)
  {
    assert Request(id)[7..] == Print(id) + [];
    AtolPrint(id, []);
    assert Want(id)[0] == 'O' && Request(id)[0] == 'R';
  }

  lemma FetchIsOwn(d: Daemon, cl: Client)
    requires Inv(d) && ClientOk(d, cl) && cl.stage.Fetching?
    ensures var r := ResultReply(d, Asked(cl.want));
      r.Some? && |d.history| - cl.issue < JOB_MAX ==> Own(d.history[cl.issue - 1], r.value.1, r.value.0)
  {
    AskedIs(cl.id);
    IdsClash(cl.issue, |d.history|);
  }

  lemma StatKeeps(d: Daemon, cl: Client, cl1: Client)
    requires ClientOk(d, cl) && (cl1 == cl || (cl.stage.Polling? && exists line :: cl1 == OnStatus(cl, line)))
    ensures ClientOk(d, cl1)
  {
  }

  lemma DaemonMoves(s: System, step: Step)
    requires Inv(s.daemon)
    ensures Inv(Move(s, step).daemon) && Grows(s.daemon, Move(s, step).daemon)
  {
    var e := match step case Internal(e) => e case Submit(_, cmd, _) => Runa(cmd) case _ => Other;
    NextInv(s.daemon, e);
    NextGrows(s.daemon, e);
  }

  lemma Submitted(d: Daemon, cmd: string)
    requires Inv(d) && d.phase == InSession(true)
    ensures var d1 := Next(d, Runa(cmd)); ClientOk(d1, Client(|d1.history|, d1.job.id, Want(d1.job.id), Polling))
  {
    NextInv(d, Runa(cmd));
  }

  lemma SubmitMoves(s: System, who: nat, cmd: string, told: bool, c: nat)
    requires SystemOk(s) && c in Move(s, Submit(who, cmd, told)).clients
    ensures var s1 := Move(s, Submit(who, cmd, told)); ClientOk(s1.daemon, s1.clients[c])
  {
    DaemonMoves(s, Submit(who, cmd, told));
    if s.daemon.phase == InSession(true) && told && who == c {
      Submitted(s.daemon, cmd);
    } else {
      ClientKeeps(s.daemon, Move(s, Submit(who, cmd, told)).daemon, s.clients[c]);
    }
  }

  lemma StatMoves(s: System, who: nat, busy: bool, c: nat)
    requires SystemOk(s) && c in s.clients
    ensures var s1 := Move(s, Stat(who, busy)); c in s1.clients && ClientOk(s1.daemon, s1.clients[c])
  {
    if who == c { StatKeeps(s.daemon, s.clients[c], Move(s, Stat(who, busy)).clients[c]); }
  }

  lemma AnswerOk(d: Daemon, cl: Client, broken: bool)
    requires Inv(d) && ClientOk(d, cl) && cl.stage.Fetching?
    ensures ClientOk(d, OnAnswer(cl, d, broken))
  {
    FetchIsOwn(d, cl);
  }

  lemma FetchMoves(s: System, who: nat, broken: bool, c: nat)
    requires SystemOk(s) && c in s.clients
    ensures var s1 := Move(s, Fetch(who, broken)); c in s1.clients && ClientOk(s1.daemon, s1.clients[c])
  {
    if who == c && s.clients[c].stage.Fetching? { AnswerOk(s.daemon, s.clients[c], broken); }
  }

  lemma ClientMoves(s: System, step: Step, c: nat)
    requires SystemOk(s) && c in Move(s, step).clients
    ensures ClientOk(Move(s, step).daemon, Move(s, step).clients[c])
  {
    match step
    case Internal(e) =>
      DaemonMoves(s, step);
      ClientKeeps(s.daemon, Next(s.daemon, e), s.clients[c]);
    case Submit(who, cmd, told) => SubmitMoves(s, who, cmd, told, c);
    case Unreachable(_) =>
    case Refused(_) =>
    case Stat(who, busy) => StatMoves(s, who, busy, c);
    case Fetch(who, broken) => FetchMoves(s, who, broken, c);
  }

  lemma MoveOk(s: System, step: Step)
    requires SystemOk(s)
    ensures SystemOk(Move(s, step))
  {
    DaemonMoves(s, step);
    forall c | c in Move(s, step).clients ensures ClientOk(Move(s, step).daemon, Move(s, step).clients[c]) {
      ClientMoves(s, step, c);
    }
  }

  /**
    For every interleaving of any number of clients within one daemon lifetime: while a
    result is held, the capture files are the output of the last job; and a client that
    was given an exit code was given the code and the output of its own job, provided
    fewer than 32767 jobs were accepted after its own before it fetched.
  */
  lemma {:induction false} CodesAreOwn(steps: seq<Step>)
    ensures SystemOk(Play(steps))
  {
    if steps != [] {
      CodesAreOwn(steps[..|steps| - 1]);
      MoveOk(Play(steps[..|steps| - 1]), steps[|steps| - 1]);
    }
  }

  /**
    What a fetch is worth, exactly: it is answered if and only if a result is held and the
    number of jobs accepted since the client's own is a multiple of 32767; what it gets is
    the last accepted job's; so it gets its own if and only if none was accepted since,
    and otherwise at least 32767 were. Outside a session there is no whole answer.
  */
  lemma FetchExact(s: System, c: nat)
    requires SystemOk(s) && c in s.clients && s.clients[c].stage.Fetching?
    ensures var d, cl := s.daemon, s.clients[c]; var n := |d.history|; var r := ResultReply(d, Asked(cl.want));
      && (r.Some? <==> d.res.valid && (n - cl.issue) % JOB_MAX == 0)
      && (r.Some? ==> Own(d.history[n - 1], r.value.1, r.value.0))
      && (r.Some? ==> cl.issue == n || n - cl.issue >= JOB_MAX)
      && (Move(s, Fetch(c, false)).clients[c].stage
          == if d.phase != InSession(true) then Fetching else if r.Some? then Done(r.value.1, r.value.0, n) else Polling)
  {
    AskedIs(s.clients[c].id);
    IdsClash(s.clients[c].issue, |s.daemon.history|);
  }

  /**
    The bound is sharp: if exactly 32767 jobs were accepted since, and the last of them
    has a result, a client that sends RESULT in a session is answered with that job's code
    and output.
  */
  lemma StaleFetchIsAnothers(s: System, c: nat)
    requires SystemOk(s) && c in s.clients && s.clients[c].stage.Fetching? && s.daemon.res.valid
    requires |s.daemon.history| - s.clients[c].issue == JOB_MAX
    ensures var cl := Move(s, Fetch(c, false)).clients[c];
      s.daemon.phase == InSession(true) ==> cl.stage.Done? && Own(s.daemon.history[cl.issue + JOB_MAX - 1], cl.stage.code, cl.stage.got)
  {
    AskedIs(s.clients[c].id);
    IdsClash(s.clients[c].issue, |s.daemon.history|);
  }

  lemma PrintTells(a: int, b: int)
    ensures Print(a) == Print(b) <==> a == b
  {
    AtolPrint(a, []);
    AtolPrint(b, []);
    assert Print(a) + [] == Print(a) && Print(b) + [] == Print(b);
  }

  lemma SameAfter(p: string, a: string, b: string)
    ensures p + a == p + b <==> a == b
  {
    assert (p + a)[|p|..] == a && (p + b)[|p|..] == b;
  }

  lemma FourthLetter(p: string, a: string)
    requires |p| > 3
    ensures |p + a| > 3 && (p + a)[3] == p[3]
  {
  }

  lemma WantsTell(a: int, b: int)
    ensures Want(a) == Want(b) <==> a == b
    ensures Want(a) != "OK idle" && !("OK busy" <= Want(a))
  {
    PrintTells(a, b);
    SameAfter("OK result ", Print(a), Print(b));
    FourthLetter("OK result ", Print(a));
  }

  /**
    What a poll is worth, exactly: a daemon that is busy or cannot be reached leaves the
    client polling; one that refuses it sends it away; and in a session it goes on to ask
    for its result if and only if a result is held under its id, and gives up otherwise.
  */
  lemma PollExact(s: System, c: nat)
    requires SystemOk(s) && c in s.clients && s.clients[c].stage.Polling? && s.clients[c].want == Want(s.clients[c].id)
    ensures Move(s, Stat(c, true)).clients[c] == s.clients[c] && Move(s, Unreachable(c)) == s
    ensures Move(s, Refused(c)).clients[c].stage == Gone
    ensures s.daemon.phase == InSession(true) ==>
      Move(s, Stat(c, false)).clients[c].stage == if s.daemon.res.valid && s.daemon.res.id == s.clients[c].id then Fetching else Gone
  {
    WantsTell(s.clients[c].id, s.daemon.res.id);
    var line := "OK busy " + Print(if s.daemon.job.pending then s.daemon.job.id else 0);
    assert line[..7] == "OK busy";
  }

  /** A client that polls in a session while the result of its own job is held, and none was accepted since, gets the code and output of that job. */
  lemma PollDelivers(s: System, c: nat)
    requires SystemOk(s) && c in s.clients && s.clients[c].stage.Polling? && s.clients[c].want == Want(s.clients[c].id)
    requires s.daemon.phase == InSession(true) && s.daemon.res.valid && s.clients[c].issue == |s.daemon.history|
    ensures var cl := Move(Move(s, Stat(c, false)), Fetch(c, false)).clients[c];
      cl.stage.Done? && Own(s.daemon.history[cl.issue - 1], cl.stage.code, cl.stage.got)
  {
    PollExact(s, c);
    MoveOk(s, Stat(c, false));
    FetchExact(Move(s, Stat(c, false)), c);
  }

  /** Whatever happens next, a client whose fetch broke off never gets a code: the line it compares with is now the request. */
  predicate Lost(cl: Client) {
    cl.want == Request(cl.id) && (cl.stage.Polling? || cl.stage.Gone?)
  }

  lemma LostStays(s: System, step: Step, c: nat)
    requires SystemOk(s) && c in s.clients && Lost(s.clients[c]) && !(step.Submit? && step.c == c)
    ensures c in Move(s, step).clients && Lost(Move(s, step).clients[c])
  {
    if step.Stat? && step.c == c {
      assert s.clients[c].want[0] == 'R';
    }
  }

  function PlayFrom(s: System, steps: seq<Step>): System {
    if steps == [] then s else Move(PlayFrom(s, steps[..|steps| - 1]), steps[|steps| - 1])
  }

  /**
    RESULT can be asked for again after it breaks off, but the polling client never does:
    from a broken fetch on, no run ends in a code, unless the client submits a new job.
  */
  lemma {:induction false} BrokenFetchIsFinal(s: System, c: nat, steps: seq<Step>)
    requires SystemOk(s) && c in s.clients && s.clients[c].stage.Fetching?
    requires forall st :: st in steps ==> !(st.Submit? && st.c == c)
    ensures var s1 := PlayFrom(Move(s, Fetch(c, true)), steps);
      SystemOk(s1) && c in s1.clients && Lost(s1.clients[c])
  {
    MoveOk(s, Fetch(c, true));
    if steps != [] {
      var init := steps[..|steps| - 1];
      BrokenFetchIsFinal(s, c, init);
      var s0 := PlayFrom(Move(s, Fetch(c, true)), init);
      MoveOk(s0, steps[|steps| - 1]);
      LostStays(s0, steps[|steps| - 1], c);
    }
  }

  // ---------------------------------------------------------------- that it does happen

  lemma {:induction false} PlayFromAppend(s: System, a: seq<Step>, b: seq<Step>)
    ensures PlayFrom(s, a + b) == PlayFrom(PlayFrom(s, a), b)
    decreases |b|
  {
    if b == [] {
      assert a + b == a;
    } else {
      assert (a + b)[..|a + b| - 1] == a + b[..|b| - 1];
      PlayFromAppend(s, a, b[..|b| - 1]);
    }
  }

  lemma {:induction false} PlayIsFromStart(steps: seq<Step>)
    ensures Play(steps) == PlayFrom(System(Start, map[]), steps)
  {
    if steps != [] { PlayIsFromStart(steps[..|steps| - 1]); }
  }

  lemma OneMore(s: System, steps: seq<Step>, a: Step)
    ensures PlayFrom(s, steps + [a]) == Move(PlayFrom(s, steps), a)
  {
    assert (steps + [a])[..|steps|] == steps;
  }

  lemma Two(s: System, a: Step, b: Step)
    ensures PlayFrom(s, [a, b]) == Move(Move(s, a), b)
  {
    OneMore(s, [], a);
    OneMore(s, [a], b);
    assert [] + [a] == [a] && [a] + [b] == [a, b];
  }

  lemma Three(s: System, a: Step, b: Step, c: Step)
    ensures PlayFrom(s, [a, b, c]) == Move(Move(Move(s, a), b), c)
  {
    Two(s, a, b);
    OneMore(s, [a, b], c);
    assert [a, b] + [c] == [a, b, c];
  }

  lemma Four(s: System, a: Step, b: Step, c: Step, d: Step)
    ensures PlayFrom(s, [a, b, c, d]) == Move(Move(Move(Move(s, a), b), c), d)
  {
    Three(s, a, b, c);
    OneMore(s, [a, b, c], d);
    assert [a, b, c] + [d] == [a, b, c, d];
  }

  /** A session that submits a job, and the job's run: by client 0, or by somebody else. */
  function Round(mine: bool, exec: Exec): seq<Step> {
    [Internal(Accept), Internal(Auth(true)), if mine then Submit(0, "job", true) else Internal(Runa("job")), Internal(RunPending(exec))]
  }

  function Rounds(n: nat, exec: Exec): seq<Step> {
    if n == 0 then [] else Rounds(n - 1, exec) + Round(false, exec)
  }

  /** The daemon waits for a session, and the last of its `n` jobs ended as `exec`. */
  ghost predicate Resting(s: System, n: nat, exec: Exec) {
    && exec.Exited? && n > 0
    && s.daemon.phase.Accepting? && s.daemon.counter == IdOf(n) && |s.daemon.history| == n
    && s.daemon.res == Res(true, IdOf(n), exec.code) && s.daemon.files == exec.files
  }

  lemma RoundRuns(s: System, n: nat, last: Exec, exec: Exec)
    requires Resting(s, n, last) && exec.Exited?
    ensures var s1 := PlayFrom(s, Round(false, exec));
      Resting(s1, n + 1, exec) && s1.clients == s.clients && s1.daemon.history[..n] == s.daemon.history
  {
    NextIdIs(n);
    var a, b, c, d := Internal(Accept), Internal(Auth(true)), Internal(Runa("job")), Internal(RunPending(exec));
    Four(s, a, b, c, d);
    var s3 := Move(Move(Move(s, a), b), c);
    assert s3.daemon.history == s.daemon.history + [Submission("job", None)];
  }

  lemma {:induction false} RoundsRun(s: System, n: nat, last: Exec, m: nat, exec: Exec)
    requires Resting(s, n, last) && exec.Exited?
    ensures var s1 := PlayFrom(s, Rounds(m, exec));
      Resting(s1, n + m, if m == 0 then last else exec) && s1.clients == s.clients && s1.daemon.history[..n] == s.daemon.history
  {
    if m > 0 {
      RoundsRun(s, n, last, m - 1, exec);
      PlayFromAppend(s, Rounds(m - 1, exec), Round(false, exec));
      var s0, s1 := PlayFrom(s, Rounds(m - 1, exec)), PlayFrom(s, Rounds(m, exec));
      RoundRuns(s0, n + m - 1, if m == 1 then last else exec, exec);
      TakeTwice(s1.daemon.history, n, n + m - 1);
    }
  }

  lemma TakeTwice<T>(s: seq<T>, i: nat, j: nat)
    requires i <= j <= |s|
    ensures s[..j][..i] == s[..i]
  {
  }

  /** Client 0 submits the daemon's first job, which runs; the client is left polling. */
  lemma FirstRound(exec: Exec)
    requires exec.Exited?
    ensures var s := PlayFrom(System(Start, map[]), Round(true, exec));
      && Resting(s, 1, exec) && s.clients == map[0 := Client(1, 1, Want(1), Polling)]
      && s.daemon.history == [Submission("job", Some(exec))]
  {
    Four(System(Start, map[]), Internal(Accept), Internal(Auth(true)), Submit(0, "job", true), Internal(RunPending(exec)));
  }

  /** A broken fetch is reached: a job submitted, run, and asked for; the daemon would still answer. */
  lemma BrokenFetchHappens() returns (steps: seq<Step>)
    ensures var s := Play(steps);
      && 0 in s.clients && s.clients[0].stage.Fetching?
      && s.daemon.phase == InSession(true) && ResultReply(s.daemon, s.clients[0].id).Some?
      && Lost(Move(s, Fetch(0, true)).clients[0])
  {
    var exec := Exited(0, Files("", ""));
    var s0, round, asking := System(Start, map[]), Round(true, exec), [Internal(Accept), Internal(Auth(true)), Stat(0, false)];
    steps := round + asking;
    FirstRound(exec);
    PlayFromAppend(s0, round, asking);
    Three(PlayFrom(s0, round), Internal(Accept), Internal(Auth(true)), Stat(0, false));
    PlayIsFromStart(steps);
  }

  /** Any positive multiple of 32767 jobs later the client is given another job's code, here 1 where its own was 0. */
  lemma StaleCodeHappens(m: nat) returns (steps: seq<Step>)
    requires m > 0
    ensures var s := Play(steps);
      && 0 in s.clients && s.clients[0].stage.Done? && s.clients[0].issue == 1
      && s.clients[0].stage.issued - s.clients[0].issue == m * JOB_MAX
      && s.clients[0].stage.code == 1
      && |s.daemon.history| == 1 + m * JOB_MAX && s.daemon.history[0].end == Some(Exited(0, Files("", "")))
  {
    var mine, theirs := Exited(0, Files("", "")), Exited(1, Files("", ""));
    var s0, k := System(Start, map[]), m * JOB_MAX;
    FirstRound(mine);
    var s1 := PlayFrom(s0, Round(true, mine));
    RoundsRun(s1, 1, mine, k, theirs);
    PlayFromAppend(s0, Round(true, mine), Rounds(k, theirs));
    var s2 := PlayFrom(s1, Rounds(k, theirs));
    assert s2.daemon.history[0] == s2.daemon.history[..1][0];
    WrapsAround(m);
    StaleFetch(s2, k);
    steps := Round(true, mine) + Rounds(k, theirs) + Poll();
    PlayFromAppend(s0, Round(true, mine) + Rounds(k, theirs), Poll());
    PlayIsFromStart(steps);
  }

  /** Client 0's session: it finds its result and asks for it. */
  function Poll(): seq<Step> {
    [Internal(Accept), Internal(Auth(true)), Stat(0, false), Fetch(0, false)] + [Internal(Close)]
  }

  lemma StaleFetch(s: System, k: nat)
    requires k > 0 && IdOf(1 + k) == 1 && Resting(s, 1 + k, Exited(1, Files("", "")))
    requires s.clients == map[0 := Client(1, 1, Want(1), Polling)]
    ensures var s1 := PlayFrom(s, Poll());
      s1.daemon.history == s.daemon.history && 0 in s1.clients && s1.clients[0].issue == 1 && s1.clients[0].stage == Done(1, Files("", ""), 1 + k)
  {
    AskedIs(1);
    Four(s, Internal(Accept), Internal(Auth(true)), Stat(0, false), Fetch(0, false));
    OneMore(s, [Internal(Accept), Internal(Auth(true)), Stat(0, false), Fetch(0, false)], Internal(Close));
  }

  lemma WrapsAround(m: nat)
    requires m > 0
    ensures IdOf(1 + m * JOB_MAX) == 1 && m * JOB_MAX > 0
  {
  }
}
