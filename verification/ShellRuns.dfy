/** What a run of the build shell's evaluator may look like (src/build_shell.c:1104-1584):
    the events of commands, the stages of a pipeline and the pipelines of a list. */
module ShellRuns {
  import opened Common
  import opened ShellParser
  import opened ShellRaw

  const MaxDeferred: nat := 64

  const ErrGeneric := -1
  const ErrPipe := -4
  const ErrFork := -5
  const ErrPerm := -7

  /** What the evaluator asked of the system, in order. A pid of -1 stands for a
      command that left no child to wait for. */
  datatype Event =
    | Opened(dir: Direction, file: string, fd: int)
    | Refused(dir: Direction, file: string)
    | Closed(fd: int)
    | Piped(readEnd: int, writeEnd: int)
    | Ran(words: Ast, input: int, output: int, bg: bool, pid: int)
    | NotRun(words: Ast, code: int)
    | Waited(pid: int, status: nat)

  // ---------- what one command does ----------

  /** The events of one command run with the given descriptors: each redirection
      opened around the rest and closed after it. */
  ghost predicate CommandTrace(a: Ast, input: int, output: int, bg: bool, t: seq<Event>)
    decreases a
  {
    match a
    case Redir(d, f, body) =>
      || t == [Refused(d, f)]
      || (&& |t| >= 2 && t[0].Opened? && t[0].dir == d && t[0].file == f && t[|t| - 1] == Closed(t[0].fd)
          && CommandTrace(body, if d.In? then t[0].fd else input, if d.Out? then t[0].fd else output, bg,
                          t[1..|t| - 1]))
    case _ =>
      t != [] && (Skipped(a, t) || RanWith(a, input, output, bg, t))
  }

  predicate Skipped(a: Ast, t: seq<Event>) {
    |t| == 1 && t[0].NotRun? && t[0].words == a
  }

  /** a ran with these descriptors, and was waited for at once or not at all. */
  predicate RanWith(a: Ast, input: int, output: int, bg: bool, t: seq<Event>) {
    && 1 <= |t| <= 2 && t[0].Ran? && t[0] == Ran(a, input, output, bg, t[0].pid)
    && (|t| == 2 ==> t[1].Waited? && t[1].pid == t[0].pid)
  }

  /** k is the last redirection in direction d. */
  predicate IsLast(rs: seq<Redirect>, d: Direction, k: nat) {
    k < |rs| && rs[k].0 == d && forall j :: k < j < |rs| ==> rs[j].0 != d
  }

  /** The descriptor a command gets in direction d: the last redirection's, or with
      none the one it was given. */
  ghost predicate Gets(rs: seq<Redirect>, t: seq<Event>, d: Direction, given: int, fd: int)
    requires |rs| <= |t|
  {
    && (forall k: nat :: IsLast(rs, d, k) ==> t[k].Opened? && fd == t[k].fd)
    && ((forall k :: 0 <= k < |rs| ==> rs[k].0 != d) ==> fd == given)
  }

  /** The first k redirections opened in source order, and closed in reverse. */
  ghost predicate Nested(rs: seq<Redirect>, t: seq<Event>, k: nat) {
    && k <= |rs| && 2 * k < |t|
    && forall i {:trigger rs[i]} :: 0 <= i < k ==>
         t[i].Opened? && t[i].dir == rs[i].0 && t[i].file == rs[i].1 && t[|t| - 1 - i] == Closed(t[i].fd)
  }

  /** What happened between the opens and the closes, all redirections open. */
  ghost predicate RanLast(rs: seq<Redirect>, w: Ast, input: int, output: int, bg: bool, t: seq<Event>, mid: seq<Event>)
    requires |rs| <= |t|
  {
    || Skipped(w, mid)
    || (mid != [] && mid[0].Ran? && RanWith(w, mid[0].input, mid[0].output, bg, mid)
        && Gets(rs, t, In, input, mid[0].input) && Gets(rs, t, Out, output, mid[0].output))
  }

  lemma Inner(t: seq<Event>, k: nat)
    requires 2 * k + 2 < |t|
    ensures t[1..|t| - 1][k..|t| - 2 - k] == t[k + 1..|t| - (k + 1)]
    ensures t[1..|t| - 1][k] == t[k + 1]
  {
    var l, r := t[1..|t| - 1][k..|t| - 2 - k], t[k + 1..|t| - (k + 1)];
    assert |l| == |r|;
    forall i | 0 <= i < |l| ensures l[i] == r[i] { assert l[i] == t[1..|t| - 1][k + i] == t[k + 1 + i]; }
  }

  lemma NestedOuter(rs: seq<Redirect>, t: seq<Event>, k: nat)
    requires rs != [] && |t| >= 2 && t[0].Opened? && t[0] == Opened(rs[0].0, rs[0].1, t[0].fd)
        && t[|t| - 1] == Closed(t[0].fd)
    requires Nested(rs[1..], t[1..|t| - 1], k)
    ensures Nested(rs, t, k + 1)
  {
    var rs', t' := rs[1..], t[1..|t| - 1];
    forall i | 0 <= i < k + 1
      ensures t[i].Opened? && t[i].dir == rs[i].0 && t[i].file == rs[i].1 && t[|t| - 1 - i] == Closed(t[i].fd)
    {
      if i > 0 {
        assert rs'[i - 1] == rs[i];
        assert t'[i - 1] == t[i];
        assert t'[|t'| - 1 - (i - 1)] == t[|t| - 1 - i];
      }
    }
  }

  /** What a command's trace shows when exactly k of its redirections opened. */
  ghost predicate Shows(rs: seq<Redirect>, w: Ast, input: int, output: int, bg: bool, t: seq<Event>, k: nat) {
    && Nested(rs, t, k)
    && (k < |rs| ==> |t| == 2 * k + 1 && t[k] == Refused(rs[k].0, rs[k].1))
    && (k == |rs| ==> RanLast(rs, w, input, output, bg, t, t[k..|t| - k]))
  }

  lemma ShowsOuter(rs: seq<Redirect>, w: Ast, input: int, output: int, bg: bool, t: seq<Event>, k: nat)
    requires rs != [] && |t| >= 2 && t[0].Opened? && t[0] == Opened(rs[0].0, rs[0].1, t[0].fd)
    requires t[|t| - 1] == Closed(t[0].fd)
    requires Shows(rs[1..], w, if rs[0].0.In? then t[0].fd else input, if rs[0].0.Out? then t[0].fd else output,
                   bg, t[1..|t| - 1], k)
    ensures Shows(rs, w, input, output, bg, t, k + 1)
  {
    NestedOuter(rs, t, k);
    Inner(t, k);
    if k + 1 == |rs| {
      RanLastOuter(rs, w, input, output, bg, t, t[k + 1..|t| - (k + 1)]);
    }
  }

  /** Redirections are opened in source order and closed in reverse; if the k-th does
      not open, nothing runs; if all open, the command runs with the last of each
      direction. */
  lemma {:induction false} RedirectionsInOrder(
    rs: seq<Redirect>, w: Ast, input: int, output: int, bg: bool, t: seq<Event>) returns (k: nat)
    requires IsWords(w) && CommandTrace(Wrap(rs, w), input, output, bg, t)
    ensures Shows(rs, w, input, output, bg, t, k)
    decreases |rs|
  {
    if rs == [] {
      k := 0;
      assert t[0..|t| - 0] == t;
    } else if t == [Refused(rs[0].0, rs[0].1)] {
      k := 0;
    } else {
      k := RedirectionsInOrder(rs[1..], w, if rs[0].0.In? then t[0].fd else input,
                               if rs[0].0.Out? then t[0].fd else output, bg, t[1..|t| - 1]);
      ShowsOuter(rs, w, input, output, bg, t, k);
      k := k + 1;
    }
  }

  lemma RanLastOuter(rs: seq<Redirect>, w: Ast, input: int, output: int, bg: bool, t: seq<Event>, mid: seq<Event>)
    requires rs != [] && |rs| + 1 <= |t| && t[0].Opened?
    requires RanLast(rs[1..], w, if rs[0].0.In? then t[0].fd else input, if rs[0].0.Out? then t[0].fd else output,
                     bg, t[1..|t| - 1], mid)
    ensures RanLast(rs, w, input, output, bg, t, mid)
  {
    if !Skipped(w, mid) {
      GetsOuter(rs, t, In, input, mid[0].input);
      GetsOuter(rs, t, Out, output, mid[0].output);
    }
  }

  lemma GetsOuter(rs: seq<Redirect>, t: seq<Event>, d: Direction, given: int, fd: int)
    requires rs != [] && |rs| + 1 <= |t| && t[0].Opened?
    requires Gets(rs[1..], t[1..|t| - 1], d, if rs[0].0 == d then t[0].fd else given, fd)
    ensures Gets(rs, t, d, given, fd)
  {
    var rs', t' := rs[1..], t[1..|t| - 1];
    forall k: nat | IsLast(rs, d, k) ensures t[k].Opened? && fd == t[k].fd {
      if k > 0 {
        assert IsLast(rs', d, k - 1);
        assert t'[k - 1] == t[k];
      } else {
        assert forall j :: 0 <= j < |rs'| ==> rs'[j] == rs[j + 1];
      }
    }
    if forall k :: 0 <= k < |rs| ==> rs[k].0 != d {
      assert forall j :: 0 <= j < |rs'| ==> rs'[j] == rs[j + 1];
    }
  }

  // ---------- pipelines ----------

  /** One stage as it ran: its descriptors, its part of the log, what it returned and
      the child it left to be waited for (-1: none). */
  datatype StageRun = StageRun(input: int, output: int, from: nat, upto: nat, code: int, pid: int)

  function Stages(a: Ast): (r: seq<Ast>)
    ensures r != []
  {
    if a.Pipe? then [a.left] + Stages(a.right) else [a]
  }

  /** The children left by stages, in order. */
  function Pids(runs: seq<StageRun>): (r: seq<int>)
    ensures |r| <= |runs|
  {
    if runs == [] then []
    else
      var last := runs[|runs| - 1];
      Pids(runs[..|runs| - 1]) + if last.pid >= 0 then [last.pid] else []
  }

  /** The waits that end a pipeline: each child once, in order. */
  function Waits(runs: seq<StageRun>, rs: seq<int>): seq<Event>
    requires |rs| == |runs|
  {
    if runs == [] then []
    else
      var n := |runs| - 1;
      Waits(runs[..n], rs[..n]) + if runs[n].pid >= 0 && rs[n] >= 0 then [Waited(runs[n].pid, rs[n])] else []
  }

  /** The first negative result, or 0. */
  function FirstError(rs: seq<int>): int {
    if rs == [] then 0
    else
      var n := |rs| - 1;
      var e := FirstError(rs[..n]);
      if e != 0 then e else if rs[n] < 0 then rs[n] else 0
  }

  /** The last result that is not negative, or 0. */
  function LastStatus(rs: seq<int>): int {
    if rs == [] then 0
    else if rs[|rs| - 1] >= 0 then rs[|rs| - 1] else LastStatus(rs[..|rs| - 1])
  }

  function Outcome(rs: seq<int>): int {
    if FirstError(rs) != 0 then FirstError(rs) else LastStatus(rs)
  }

  predicate FirstNegative(rs: seq<int>, i: nat) {
    i < |rs| && rs[i] < 0 && forall j :: 0 <= j < i ==> rs[j] >= 0
  }

  /** A pipeline's result is its first negative stage result, or else its last
      stage's. */
  lemma {:induction false} OutcomeIs(rs: seq<int>)
    ensures FirstError(rs) <= 0
    ensures forall i: nat :: FirstNegative(rs, i) ==> Outcome(rs) == rs[i]
    ensures (forall i :: 0 <= i < |rs| ==> rs[i] >= 0) ==>
        FirstError(rs) == 0 && (rs != [] ==> Outcome(rs) == rs[|rs| - 1])
    decreases |rs|
  {
    if rs != [] {
      var n := |rs| - 1;
      OutcomeIs(rs[..n]);
      forall i: nat | FirstNegative(rs, i) ensures FirstError(rs) == rs[i] {
        if i < n {
          assert FirstNegative(rs[..n], i);
        }
      }
    }
  }

  // ---------- what a stage left behind ----------

  /** The child a command left to be waited for, or -1. */
  ghost function LeftPid(a: Ast, t: seq<Event>): int {
    if a.Redir? then if |t| >= 2 then LeftPid(a.body, t[1..|t| - 1]) else -1
    else if |t| == 1 && t[0].Ran? then t[0].pid else -1
  }

  /** rc is what the command reports: its refusal, its awaited status, 0 when it was
      left running, and whatever a builtin in the shell's own process returned. */
  ghost predicate Returns(a: Ast, t: seq<Event>, rc: int) {
    if a.Redir? then
      if |t| >= 2 then Returns(a.body, t[1..|t| - 1], rc) else rc == ErrPerm || rc == ErrGeneric
    else if |t| == 2 then t[1].Waited? && rc == t[1].status
    else |t| == 1 && (t[0].NotRun? ==> rc == t[0].code && rc < 0) && (t[0].Ran? && t[0].pid >= 0 ==> rc == 0)
  }

  /** Stage i of n ran between its two pipes. */
  ghost predicate StageOk(
    stages: seq<Ast>, i: nat, run: StageRun, pipes: seq<(int, int)>, bg: bool, log: seq<Event>, base: nat)
    requires i < |stages|
  {
    && i <= |pipes| && (i + 1 < |stages| ==> i < |pipes|)
    && run.input == (if i == 0 then -1 else pipes[i - 1].0)
    && run.output == (if i + 1 == |stages| then -1 else pipes[i].1)
    && base <= run.from <= run.upto <= |log|
    && var t := log[run.from..run.upto];
       CommandTrace(stages[i], run.input, run.output, bg, t)
       && LeftPid(stages[i], t) == run.pid && Returns(stages[i], t, run.code)
  }

  /** The pipes a log shows, in order. */
  function PipesMade(log: seq<Event>): (r: seq<(int, int)>) {
    if log == [] then []
    else
      var last := log[|log| - 1];
      PipesMade(log[..|log| - 1]) + if last.Piped? then [(last.readEnd, last.writeEnd)] else []
  }

  /** pipes are the ones made since base. */
  ghost predicate Made(log: seq<Event>, base: nat, pipes: seq<(int, int)>) {
    base <= |log| && PipesMade(log[base..]) == pipes
  }

  lemma {:induction false} PipesAppend(a: seq<Event>, b: seq<Event>)
    ensures PipesMade(a + b) == PipesMade(a) + PipesMade(b)
    decreases |b|
  {
    if b == [] {
      assert a + b == a;
    } else {
      var n := |b| - 1;
      assert (a + b)[..|a| + n] == a + b[..n];
      PipesAppend(a, b[..n]);
    }
  }

  lemma OneEvent(e: Event)
    ensures PipesMade([e]) == if e.Piped? then [(e.readEnd, e.writeEnd)] else []
  {
    assert [e][..0] == [];
  }

  lemma MadeMore(log: seq<Event>, later: seq<Event>, base: nat, pipes: seq<(int, int)>, extra: seq<Event>)
    requires Made(log, base, pipes) && later == log + extra
    ensures Made(later, base, pipes + PipesMade(extra))
  {
    assert later[base..] == log[base..] + extra;
    PipesAppend(log[base..], extra);
  }

  /** A command makes no pipe. */
  lemma {:induction false} CommandMakesNone(a: Ast, input: int, output: int, bg: bool, t: seq<Event>)
    requires CommandTrace(a, input, output, bg, t)
    ensures PipesMade(t) == []
    decreases a
  {
    if |t| == 1 {
      OneEvent(t[0]);
      assert t == [t[0]];
    } else if a.Redir? {
      var inner := t[1..|t| - 1];
      CommandMakesNone(a.body, if a.dir.In? then t[0].fd else input, if a.dir.Out? then t[0].fd else output, bg, inner);
      assert t == [t[0]] + inner + [t[|t| - 1]];
      AroundMakesNone(t[0], inner, t[|t| - 1]);
    } else {
      assert t == [t[0]] + [] + [t[1]];
      AroundMakesNone(t[0], [], t[1]);
    }
  }

  lemma AroundMakesNone(first: Event, inner: seq<Event>, last: Event)
    requires !first.Piped? && !last.Piped? && PipesMade(inner) == []
    ensures PipesMade([first] + inner + [last]) == []
  {
    OneEvent(first);
    OneEvent(last);
    PipesAppend([first], inner);
    PipesAppend([first] + inner, [last]);
  }

  lemma {:induction false} WaitsMakeNone(runs: seq<StageRun>, rs: seq<int>)
    requires |rs| == |runs|
    ensures PipesMade(Waits(runs, rs)) == []
    decreases |runs|
  {
    if runs != [] {
      var n := |runs| - 1;
      WaitsMakeNone(runs[..n], rs[..n]);
      assert Waits(runs[..n], rs[..n]) + [] == Waits(runs[..n], rs[..n]);
      if runs[n].pid >= 0 && rs[n] >= 0 {
        var e := Waited(runs[n].pid, rs[n]);
        OneEvent(e);
        PipesAppend(Waits(runs[..n], rs[..n]), [e]);
      }
    }
  }

  ghost predicate Linked(
    stages: seq<Ast>, runs: seq<StageRun>, pipes: seq<(int, int)>, bg: bool, log: seq<Event>, base: nat)
  {
    && |runs| <= |stages|
    && forall i {:trigger runs[i]} :: 0 <= i < |runs| ==> StageOk(stages, i, runs[i], pipes, bg, log, base)
  }

  lemma LinkedGrows(stages: seq<Ast>, runs: seq<StageRun>, pipes: seq<(int, int)>, more: seq<(int, int)>,
                    bg: bool, log: seq<Event>, later: seq<Event>, base: nat)
    requires Linked(stages, runs, pipes, bg, log, base) && log <= later && pipes <= more
    ensures Linked(stages, runs, more, bg, later, base)
  {
    forall i | 0 <= i < |runs| ensures StageOk(stages, i, runs[i], more, bg, later, base) {
      assert StageOk(stages, i, runs[i], pipes, bg, log, base);
      assert later[runs[i].from..runs[i].upto] == log[runs[i].from..runs[i].upto];
    }
  }

  /** The children not yet waited for: those before, and the deferred ones from k on. */
  ghost predicate Waiting(kids: set<int>, before: set<int>, pids: seq<int>, k: nat) {
    && k <= |pids| && Distinct(pids)
    && (forall i :: 0 <= i < |pids| ==> pids[i] !in before)
    && (forall p :: p in kids <==> p in before || p in pids[k..])
  }

  lemma WaitingMore(kids: set<int>, before: set<int>, pids: seq<int>, pid: int)
    requires Waiting(kids, before, pids, 0) && pid !in kids
    ensures Waiting(kids + {pid}, before, pids + [pid], 0)
  {
    assert pids[0..] == pids;
    assert (pids + [pid])[0..] == pids + [pid];
    forall i | 0 <= i < |pids| ensures pids[i] != pid { assert pids[i] in pids; }
  }

  lemma WaitingLess(kids: set<int>, before: set<int>, pids: seq<int>, k: nat)
    requires Waiting(kids, before, pids, k) && k < |pids|
    ensures pids[k] in kids && Waiting(kids - {pids[k]}, before, pids, k + 1)
  {
    var rest := pids[k + 1..];
    assert pids[k..] == [pids[k]] + rest;
    assert pids[k] == pids[k..][0] && pids[k] in pids[k..];
    forall j | 0 <= j < |rest| ensures rest[j] != pids[k] { assert rest[j] == pids[k + 1 + j]; }
  }

  /** The fixed-size arrays hold what the stages returned. */
  ghost predicate Filled(runs: seq<StageRun>, codes: seq<int>, defers: seq<bool>) {
    && |runs| <= |codes| && |runs| <= |defers|
    && forall i :: 0 <= i < |runs| ==> codes[i] == runs[i].code && defers[i] == (runs[i].pid >= 0)
  }

  lemma {:induction false} PidsAt(runs: seq<StageRun>, i: nat)
    requires i < |runs|
    ensures Pids(runs[..i]) <= Pids(runs)
    ensures runs[i].pid >= 0 ==> |Pids(runs[..i])| < |Pids(runs)| && Pids(runs)[|Pids(runs[..i])|] == runs[i].pid
    ensures Pids(runs[..i + 1]) == Pids(runs[..i]) + if runs[i].pid >= 0 then [runs[i].pid] else []
    decreases |runs|
  {
    assert runs[..i + 1][..i] == runs[..i];
    if i + 1 < |runs| {
      var n := |runs| - 1;
      PidsAt(runs[..n], i);
      assert runs[..n][..i] == runs[..i];
    } else {
      assert runs[..i + 1] == runs;
    }
  }

  /** The log around a redirected command is the open, the command and the close. */
  lemma Around(a: Ast, l0: seq<Event>, l1: seq<Event>, l2: seq<Event>, l3: seq<Event>, fd: int)
    requires a.Redir? && l1 == l0 + [Opened(a.dir, a.file, fd)] && l1 <= l2 && l3 == l2 + [Closed(fd)]
    ensures l0 <= l3
    ensures var t := l3[|l0|..];
            |t| >= 2 && t[0] == Opened(a.dir, a.file, fd) && t[|t| - 1] == Closed(fd) && t[1..|t| - 1] == l2[|l1|..]
  {
    assert l3[|l0|..][1..|l3| - |l0| - 1] == l2[|l1|..];
  }

  lemma SomeFresh(s: set<int>, bound: int)
    requires forall x :: x in s ==> x < bound
    ensures exists n: int :: n >= 0 && n !in s
  {
    var n := if bound >= 0 then bound else 0;
    assert n >= 0 && n !in s;
  }

  lemma {:induction false} Bounded(s: set<int>) returns (bound: int)
    ensures forall x :: x in s ==> x < bound
    decreases |s|
  {
    bound := 0;
    if x :| x in s {
      var b := Bounded(s - {x});
      bound := if b > x then b else x + 1;
      forall y | y in s ensures y < bound { if y != x { assert y in s - {x}; } }
    }
  }

  /** A pipeline of a list that ran: what it returned, whether as a background job, and
      how far the log went with it. */
  datatype Played = Played(code: int, bg: bool, upto: nat)

  /** The pipelines of a list, in order. */
  function Pipelines(a: Ast): seq<Ast> {
    if a.Nil? then [] else if IsList(a) then [a.left] + Pipelines(a.right) else [a]
  }

  /** The log from base on is one run of the pipe a with result rc. */
  ghost predicate PipeRan(a: Ast, p: Progress, rs: seq<int>, bg: bool, log: seq<Event>, base: nat, rc: int) {
    && p.stages == Stages(a) && p.Sized() && Linked(p.stages, p.runs, p.pipes, bg, log, base)
    && |rs| == |p.runs| && WaitedAtEnd(p.runs, rs, log)
    && rc == (if |rs| == |Stages(a)| then Outcome(rs) else ErrPipe)
    && Made(log, base, p.pipes) && (IsPipeline(a) || p.Short())
  }

  /** The log from base on is a run of the pipe a up to its missing last stage, which is
      dereferenced. */
  ghost predicate PipeCrashed(a: Ast, p: Progress, bg: bool, log: seq<Event>, base: nat) {
    && p.stages == Stages(a) && !IsPipeline(a) && !p.Short() && |p.runs| == |p.pipes| == |p.stages| - 1
    && Linked(p.stages, p.runs, p.pipes, bg, log, base) && Made(log, base, p.pipes)
  }

  ghost predicate PipelineCrashed(a: Ast, bg: bool, log: seq<Event>, base: nat) {
    a.Pipe? && exists p: Progress :: PipeCrashed(a, p, bg, log, base)
  }

  /** However a pipe ends, it crashed exactly when it lacks its last stage and a pipe was
      made for each of at most 64 stages before that one. */
  lemma CrashesExactly(a: Ast, input: int, output: int, bg: bool, log: seq<Event>, base: nat, rc: int)
    requires a.Pipe? && base <= |log|
    requires PipelineRan(a, input, output, bg, log, base, rc) || PipelineCrashed(a, bg, log, base)
    ensures PipelineCrashed(a, bg, log, base) <==>
            !IsPipeline(a) && |PipesMade(log[base..])| == |Stages(a)| - 1 <= MaxDeferred
    ensures PipelineCrashed(a, bg, log, base) ==> !PipelineRan(a, input, output, bg, log, base, rc)
  {
    if PipelineRan(a, input, output, bg, log, base, rc) {
      var p: Progress, rs: seq<int> :| PipeRan(a, p, rs, bg, log, base, rc);
      assert p.pipes == PipesMade(log[base..]);
    }
  }

  /** The log from base on is one run of the pipeline or command a with result rc. */
  ghost predicate PipelineRan(a: Ast, input: int, output: int, bg: bool, log: seq<Event>, base: nat, rc: int) {
    base <= |log|
    && if a.Pipe? then exists p: Progress, rs: seq<int> :: PipeRan(a, p, rs, bg, log, base, rc)
       else CommandTrace(a, input, output, bg, log[base..]) && Returns(a, log[base..], rc)
  }

  /** The log from base on is the first |played| pipelines of ps run one after the other,
      each with the given descriptors, and nothing else. */
  ghost predicate Performed(ps: seq<Ast>, played: seq<Played>, input: int, output: int, log: seq<Event>, base: nat)
    decreases |played|
  {
    if played == [] then |log| == base
    else
      && ps != [] && base <= played[0].upto <= |log|
      && PipelineRan(ps[0], input, output, played[0].bg, log[..played[0].upto], base, played[0].code)
      && Performed(ps[1..], played[1..], input, output, log, played[0].upto)
  }

  lemma PerformedFirst(p: Ast, ps: seq<Ast>, first: Played, rest: seq<Played>, input: int, output: int,
                       mid: seq<Event>, log: seq<Event>, base: nat)
    requires mid <= log && first.upto == |mid| && base <= |mid|
    requires PipelineRan(p, input, output, first.bg, mid, base, first.code)
    requires Performed(ps, rest, input, output, log, |mid|)
    ensures Performed([p] + ps, [first] + rest, input, output, log, base)
  {
    assert ([p] + ps)[1..] == ps && ([first] + rest)[1..] == rest;
    assert log[..|mid|] == mid;
  }

  predicate ShortPipelines(a: Ast) {
    if a.Nil? then true
    else if IsList(a) then |Stages(a.left)| <= MaxDeferred + 1 && ShortPipelines(a.right)
    else |Stages(a)| <= MaxDeferred + 1
  }

  /** The list's pipelines ran as played says, and rc is the list's result. */
  predicate Plays(a: Ast, bg: bool, played: seq<Played>, rc: int) {
    match a
    case Nil => played == [] && rc == 0
    case Background(_, r) => played != [] && played[0].bg && Plays(r, true, played[1..], rc)
    case Seq(_, r) => played != [] && played[0].bg == bg && Plays(r, bg, played[1..], rc)
    case And(_, r) => played != [] && played[0].bg == bg
                      && if played[0].code == 0 then Plays(r, bg, played[1..], rc)
                        else |played| == 1 && rc == played[0].code
    case Or(_, r) => played != [] && played[0].bg == bg
                     && if played[0].code != 0 then Plays(r, bg, played[1..], rc)
                       else |played| == 1 && rc == played[0].code
    case _ => |played| == 1 && played[0].code == rc && played[0].bg == bg
  }

  /** The list ran the pipelines in played, each going on to the next, and crashed in the
      one behind them. */
  ghost predicate Crashes(a: Ast, bg: bool, played: seq<Played>, input: int, output: int, log: seq<Event>, base: nat)
    decreases a
  {
    var b := bg || a.Background?;
    !a.Nil? &&
    if played == [] then PipelineCrashed(if IsList(a) then a.left else a, b, log, base)
    else
      && IsList(a) && played[0].bg == b && GoesOn(a, played[0].code) && base <= played[0].upto <= |log|
      && PipelineRan(a.left, input, output, b, log[..played[0].upto], base, played[0].code)
      && Crashes(a.right, b, played[1..], input, output, log, played[0].upto)
  }

  lemma CrashesLater(a: Ast, bg: bool, first: Played, rest: seq<Played>, input: int, output: int,
                     mid: seq<Event>, log: seq<Event>, base: nat)
    requires IsList(a) && first.bg == (bg || a.Background?) && GoesOn(a, first.code)
    requires mid <= log && first.upto == |mid| && base <= |mid|
    requires PipelineRan(a.left, input, output, first.bg, mid, base, first.code)
    requires Crashes(a.right, first.bg, rest, input, output, log, |mid|)
    ensures Crashes(a, bg, [first] + rest, input, output, log, base)
  {
    assert ([first] + rest)[1..] == rest;
    assert log[..|mid|] == mid;
  }

  /** The list goes on behind its first pipeline. */
  predicate GoesOn(a: Ast, code: int) {
    (a.And? ==> code == 0) && (a.Or? ==> code != 0)
  }

  lemma ListPlays(a: Ast, bg: bool, head: Played, rest: seq<Played>, played: seq<Played>, rc: int)
    requires IsList(a) && played == [head] + rest && head.bg == (bg || a.Background?)
    requires if GoesOn(a, head.code) then Plays(a.right, bg || a.Background?, rest, rc)
        else rest == [] && rc == head.code
    ensures Plays(a, bg, played, rc)
  {
    assert played[1..] == rest;
  }

  /** A list once its first pipeline has returned and the rest has run or crashed. */
  lemma ListEnds(a: Ast, bg: bool, first: Played, rest: seq<Played>, rc: int, crashed: bool, input: int, output: int,
                 mid: seq<Event>, log: seq<Event>, base: nat)
    requires IsList(a) && first.bg == (bg || a.Background?)
    requires mid <= log && first.upto == |mid| && base <= |mid|
    requires PipelineRan(a.left, input, output, first.bg, mid, base, first.code)
    requires crashed ==> GoesOn(a, first.code) && Crashes(a.right, first.bg, rest, input, output, log, |mid|)
    requires !crashed ==> Performed(Pipelines(a.right), rest, input, output, log, |mid|)
    requires !crashed ==> if GoesOn(a, first.code) then Plays(a.right, first.bg, rest, rc)
        else rest == [] && rc == first.code
    ensures crashed ==> Crashes(a, bg, [first] + rest, input, output, log, base)
    ensures !crashed ==> Plays(a, bg, [first] + rest, rc)
    ensures !crashed ==> Performed(Pipelines(a), [first] + rest, input, output, log, base)
  {
    if crashed {
      CrashesLater(a, bg, first, rest, input, output, mid, log, base);
    } else {
      PerformedFirst(a.left, Pipelines(a.right), first, rest, input, output, mid, log, base);
      ListPlays(a, bg, first, rest, [first] + rest, rc);
    }
  }

  function Operators(a: Ast): (r: seq<Token>)
    ensures forall i :: 0 <= i < |r| ==> IsListOperator(r[i])
  {
    if IsList(a) then [ListOperator(a)] + Operators(a.right) else []
  }

  /** How many pipelines the list has. */
  function Length(a: Ast): (n: nat)
    ensures n == |Operators(a)| || n == |Operators(a)| + 1
  {
    if a.Nil? then 0 else if IsList(a) then 1 + Length(a.right) else 1
  }

  /** Nothing behind this operator runs. */
  predicate Stops(op: Token, code: int) {
    (op.AndTok? && code != 0) || (op.OrTok? && code == 0)
  }

  predicate BackgroundBefore(ops: seq<Token>, i: nat) {
    exists j :: 0 <= j <= i && j < |ops| && ops[j].Ampersand?
  }

  /** Of a list's len pipelines those in played ran: none of the operators between
      them stops the list, the next one does, and rc is the last code, or 0 behind a
      trailing operator. */
  ghost predicate RanCodes(ops: seq<Token>, len: nat, played: seq<Played>, rc: int) {
    var n := |played|;
    && |ops| <= len <= |ops| + 1 && n <= len
    && (forall i :: 0 <= i < n - 1 ==> !Stops(ops[i], played[i].code))
    && (n < len ==> n > 0 && Stops(ops[n - 1], played[n - 1].code))
    && rc == if n == 0 || (n == |ops| && !Stops(ops[n - 1], played[n - 1].code)) then 0 else played[n - 1].code
  }

  ghost predicate RanInBackground(ops: seq<Token>, bg: bool, played: seq<Played>) {
    forall i :: 0 <= i < |played| ==> played[i].bg == (bg || BackgroundBefore(ops, i))
  }

  lemma PeelCodes(op: Token, ops: seq<Token>, len: nat, first: Played, rest: seq<Played>, rc: int)
    requires !Stops(op, first.code)
    ensures RanCodes([op] + ops, len + 1, [first] + rest, rc) <==> RanCodes(ops, len, rest, rc)
  {
    var ops1, all, n := [op] + ops, [first] + rest, |rest|;
    if RanCodes(ops, len, rest, rc) {
      forall i | 0 <= i < n ensures !Stops(ops1[i], all[i].code) {
        if i > 0 { assert !Stops(ops[i - 1], rest[i - 1].code); }
      }
    }
    if RanCodes(ops1, len + 1, all, rc) {
      forall i | 0 <= i < n - 1 ensures !Stops(ops[i], rest[i].code) {
        assert !Stops(ops1[i + 1], all[i + 1].code);
      }
    }
  }

  lemma PeelBackground(op: Token, ops: seq<Token>, bg: bool, first: Played, rest: seq<Played>)
    ensures RanInBackground([op] + ops, bg, [first] + rest) <==>
            first.bg == (bg || op.Ampersand?) && RanInBackground(ops, bg || op.Ampersand?, rest)
  {
    var ops1, all := [op] + ops, [first] + rest;
    assert op.Ampersand? ==> ops1[0].Ampersand?;
    assert BackgroundBefore(ops1, 0) <==> op.Ampersand?;
    assert all[0] == first;
    forall i: nat ensures BackgroundBefore(ops1, i + 1) <==> op.Ampersand? || BackgroundBefore(ops, i) {
      if BackgroundBefore(ops, i) {
        var j :| 0 <= j <= i && j < |ops| && ops[j].Ampersand?;
        assert ops1[j + 1].Ampersand?;
      }
      if BackgroundBefore(ops1, i + 1) && !op.Ampersand? {
        var j :| 0 <= j <= i + 1 && j < |ops1| && ops1[j].Ampersand?;
        assert ops[j - 1].Ampersand?;
      }
    }
    if RanInBackground(ops1, bg, all) {
      forall i | 0 <= i < |rest| ensures rest[i].bg == (bg || op.Ampersand? || BackgroundBefore(ops, i)) {
        assert all[i + 1] == rest[i];
      }
    }
  }

  /** All four operators bind equally and to the right: the pipelines run from the
      left until the first `&&` after a failure or `||` after a success, which ends
      the whole list; every pipeline at or behind an `&` runs as a background job. */
  lemma {:induction false} PlaysExactly(a: Ast, bg: bool, played: seq<Played>, rc: int)
    ensures Plays(a, bg, played, rc) <==>
            RanCodes(Operators(a), Length(a), played, rc) && RanInBackground(Operators(a), bg, played)
    decreases a
  {
    if !IsList(a) {
      assert !BackgroundBefore([], 0);
    } else if played != [] {
      var op, ops := ListOperator(a), Operators(a.right);
      var first, rest := played[0], played[1..];
      assert played == [first] + rest;
      PlaysExactly(a.right, bg || op.Ampersand?, rest, rc);
      PeelBackground(op, ops, bg, first, rest);
      if Stops(op, first.code) {
        StopsAtFirst(op, ops, Length(a.right), first, rest, rc);
        if rest == [] { assert RanInBackground(ops, bg, rest); }
      } else {
        PeelCodes(op, ops, Length(a.right), first, rest, rc);
      }
    }
  }

  lemma StopsAtFirst(op: Token, ops: seq<Token>, len: nat, first: Played, rest: seq<Played>, rc: int)
    requires Stops(op, first.code) && |ops| <= len <= |ops| + 1
    ensures RanCodes([op] + ops, len + 1, [first] + rest, rc) <==> rest == [] && rc == first.code
  {
    var ops1, all := [op] + ops, [first] + rest;
    assert ops1[0] == op && all[0] == first;
  }

  /** How far a pipeline has got: its stages, those run so far, the pipes made, and
      where it started from. */
  datatype Progress = Progress(
    stages: seq<Ast>, runs: seq<StageRun>, pipes: seq<(int, int)>, base: nat, before: set<int>)
  {
    ghost predicate Holds(
      bg: bool, log: seq<Event>, deferred: seq<int>, kids: set<int>, codes: seq<int>, defers: seq<bool>)
    {
      && Made(log, base, pipes) && Linked(stages, runs, pipes, bg, log, base) && Filled(runs, codes, defers)
      && deferred == Pids(runs) && Waiting(kids, before, deferred, 0)
    }

    /** The next stage is a, and the descriptors are its pipe ends. */
    ghost predicate AtStage(a: Ast, input: int, output: int) {
      var i := |runs|;
      && i < |stages| && stages[i] == a && IsCommand(a)
      && i <= |pipes| && (i + 1 < |stages| ==> i < |pipes|)
      && input == (if i == 0 then -1 else pipes[i - 1].0)
      && output == (if i + 1 == |stages| then -1 else pipes[i].1)
    }

    /** How many stages ran: all of them, unless a pipe could not be made or the slots
        ran out. */
    ghost predicate Sized() {
      && |pipes| < |stages| && |pipes| <= MaxDeferred + 1
      && |runs| == Min(MaxDeferred, if |pipes| + 1 == |stages| then |stages| else |pipes|)
    }

    /** Stopped before its last stage: a pipe could not be made, or one was made for a
        stage without a slot. */
    ghost predicate Short() {
      |pipes| + 1 < |stages| || |pipes| > MaxDeferred
    }

    /** The descriptors a pipeline leaves open: the pipe made for a middle stage that
        then found no slot. */
    ghost function Leaked(): set<int> {
      if |pipes| == MaxDeferred + 1 then Ends(pipes[MaxDeferred]) else {}
    }

    ghost predicate Ended(prevRead: int, open: set<int>, open0: set<int>) {
      && Sized() && Leaked() !! open0
      && if prevRead == -1 then open == open0 && Leaked() == {}
         else prevRead in open && open - {prevRead} == open0 + Leaked()
    }

    /** count stages have run, cur is the rest of the pipeline, and the read end of the
        last pipe is the only descriptor the pipeline holds. */
    ghost predicate Between(cur: Ast, count: nat, prevRead: int, open: set<int>, open0: set<int>) {
      && (cur.Nil? || IsRawPipeline(cur)) && 1 <= count <= MaxDeferred && |runs| == |pipes| == count
      && count < |stages| && stages[count..] == Stages(cur)
      && prevRead == pipes[count - 1].0 >= 0 && prevRead !in open0 && open == open0 + {prevRead}
    }

    /** Stopped short of p's next stage: either no pipe could be made, or every slot
        was taken and the new pipe is still open. */
    ghost predicate Stopped(p: Progress, open: set<int>, was: set<int>) {
      || (this == p && open == was)
      || (|p.runs| == MaxDeferred && this.runs == p.runs && |this.pipes| == |p.pipes| + 1
          && open == was + Ends(this.pipes[|p.pipes|]) && Ends(this.pipes[|p.pipes|]) !! was)
    }
  }

  /** An event of another kind leaves a pipeline where it was. */
  lemma HoldsOn(p: Progress, bg: bool, log: seq<Event>, e: Event, deferred: seq<int>, kids: set<int>,
                codes: seq<int>, defers: seq<bool>)
    requires p.Holds(bg, log, deferred, kids, codes, defers) && !e.Piped?
    ensures p.Holds(bg, log + [e], deferred, kids, codes, defers)
  {
    OneEvent(e);
    MadeMore(log, log + [e], p.base, p.pipes, [e]);
    assert p.pipes + [] == p.pipes;
    LinkedGrows(p.stages, p.runs, p.pipes, p.pipes, bg, log, log + [e], p.base);
  }

  /** The log ends with each deferred child waited for once, in stage order, and a
      stage's result is its child's status or what it returned itself. */
  ghost predicate WaitedAtEnd(runs: seq<StageRun>, rs: seq<int>, log: seq<Event>)
    requires |rs| == |runs|
  {
    && Distinct(Pids(runs))
    && (forall i :: 0 <= i < |runs| ==> if runs[i].pid >= 0 then rs[i] >= 0 else rs[i] == runs[i].code)
    && var w := Waits(runs, rs);
       |w| <= |log| && log[|log| - |w|..] == w && forall i :: 0 <= i < |runs| ==> runs[i].upto <= |log| - |w|
  }

  ghost function Ends(pipe: (int, int)): set<int> {
    {pipe.0, pipe.1}
  }

  lemma NextIs(p: Progress, p': Progress, cur: Ast, count: nat, prevRead: int, r: int, w: int, open0: set<int>)
    requires cur.Pipe? && p.Between(cur, count, prevRead, open0 + {prevRead}, open0)
    requires p' == p.(pipes := p.pipes + [(r, w)])
    ensures p'.AtStage(cur.left, prevRead, w)
  {
    assert p.stages[count..][0] == p.stages[count];
    assert |Stages(cur)| >= 2;
  }

  lemma WaitsLast(p: Progress, bg: bool, mid: seq<Event>, log: seq<Event>, rs: seq<int>)
    requires Linked(p.stages, p.runs, p.pipes, bg, mid, p.base) && |rs| == |p.runs| && Distinct(Pids(p.runs))
    requires log == mid + Waits(p.runs, rs)
    requires forall i :: 0 <= i < |p.runs| ==> if p.runs[i].pid >= 0 then rs[i] >= 0 else rs[i] == p.runs[i].code
    ensures WaitedAtEnd(p.runs, rs, log) && Linked(p.stages, p.runs, p.pipes, bg, log, p.base)
  {
    LinkedGrows(p.stages, p.runs, p.pipes, p.pipes, bg, mid, log, p.base);
    assert log[|mid|..] == Waits(p.runs, rs);
    forall i | 0 <= i < |p.runs| ensures p.runs[i].upto <= |mid| {
      assert StageOk(p.stages, i, p.runs[i], p.pipes, bg, mid, p.base);
    }
  }

  lemma StoppedEnds(p: Progress, p': Progress, cur: Ast, count: nat, prevRead: int,
                    was: set<int>, open: set<int>, open0: set<int>)
    requires cur.Pipe? && p.Between(cur, count, prevRead, was, open0) && p'.Stopped(p, open, was)
    requires p'.stages == p.stages
    ensures p'.Ended(prevRead, open, open0) && count == |p'.runs| < |p.stages| && p'.Short()
  {
    assert |Stages(cur)| >= 2;
    assert |p.stages| == count + |Stages(cur)|;
    if p' == p {
      assert open - {prevRead} == open0;
    } else {
      assert open - {prevRead} == open0 + Ends(p'.pipes[count]);
    }
  }

  lemma LastStage(p: Progress, cur: Ast, count: nat, prevRead: int, open: set<int>, open0: set<int>)
    requires !cur.Pipe? && !cur.Nil? && p.Between(cur, count, prevRead, open, open0)
    ensures p.AtStage(cur, prevRead, -1) && |p.stages| == count + 1
    ensures count == MaxDeferred ==> p.Ended(prevRead, open, open0)
    ensures open - {prevRead} == open0
  {
    assert p.stages[count..][0] == p.stages[count];
    assert |Stages(cur)| == 1;
    assert open - {prevRead} == open0;
  }

  lemma {:induction false} WholeStages(a: Ast, i: nat)
    requires IsPipeline(a) && i < |Stages(a)|
    ensures !Stages(a)[i].Nil?
    decreases a
  {
    if a.Pipe? && i > 0 { WholeStages(a.right, i - 1); }
  }

  /** A pipeline whose next stage is missing is not whole. */
  lemma MissingStage(a: Ast, p: Progress, count: nat)
    requires p.stages == Stages(a) && count < |p.stages| && p.stages[count..] == Stages(Nil)
    ensures !IsPipeline(a) && |p.stages| == count + 1
  {
    assert p.stages[count..][0] == p.stages[count];
    if IsPipeline(a) { WholeStages(a, count); }
  }

  /** A pipeline whose last stage is there is whole. */
  lemma {:induction false} LastIsThere(a: Ast)
    requires IsRawPipeline(a) && !Stages(a)[|Stages(a)| - 1].Nil?
    ensures IsPipeline(a)
  {
    if a.Pipe? && !a.right.Nil? { LastIsThere(a.right); }
  }

  lemma LastFound(a: Ast, p: Progress, cur: Ast, count: nat)
    requires IsRawPipeline(a) && p.stages == Stages(a) && count < |p.stages| && p.stages[count..] == Stages(cur)
    requires !cur.Pipe? && !cur.Nil?
    ensures IsPipeline(a)
  {
    assert |p.stages[count..]| == 1 && p.stages[count..][0] == p.stages[count];
    LastIsThere(a);
  }

  lemma Advanced(p: Progress, p': Progress, cur: Ast, count: nat, prevRead: int, r: int, w: int,
                 open: set<int>, open0: set<int>)
    requires cur.Pipe? && count < MaxDeferred && p.Between(cur, count, prevRead, open0 + {prevRead}, open0)
    requires p'.stages == p.stages && |p'.runs| == count + 1 && p'.pipes == p.pipes + [(r, w)]
    requires r >= 0 && r != w && r !in open0 && w !in open0
    requires open == open0 + {prevRead} + {r, w} - {w} - {prevRead} && r != prevRead && w != prevRead
    ensures p'.Between(cur.right, count + 1, r, open, open0)
  {
    assert p.stages[count..][1..] == p.stages[count + 1..];
    assert open == open0 + {r};
  }

  lemma LinkedMore(p: Progress, bg: bool, log: seq<Event>, later: seq<Event>, a: Ast, run: StageRun)
    requires Linked(p.stages, p.runs, p.pipes, bg, log, p.base) && p.base <= |log| && log <= later
    requires p.AtStage(a, run.input, run.output) && run.from == |log| && run.upto == |later|
    requires var t := later[|log|..];
             CommandTrace(a, run.input, run.output, bg, t) && LeftPid(a, t) == run.pid && Returns(a, t, run.code)
    ensures Linked(p.stages, p.runs + [run], p.pipes, bg, later, p.base)
  {
    LinkedGrows(p.stages, p.runs, p.pipes, p.pipes, bg, log, later, p.base);
    assert later[run.from..run.upto] == later[|log|..];
    assert StageOk(p.stages, |p.runs|, run, p.pipes, bg, later, p.base);
  }

  lemma FilledMore(runs: seq<StageRun>, run: StageRun, codes: seq<int>, defers: seq<bool>,
                   codes': seq<int>, defers': seq<bool>)
    requires Filled(runs, codes, defers) && |runs| < |codes| && |runs| < |defers|
    requires codes' == codes[|runs| := run.code] && defers' == defers[|runs| := run.pid >= 0]
    ensures Filled(runs + [run], codes', defers')
  {
  }

  lemma ForkedMore(runs: seq<StageRun>, run: StageRun, pids: seq<int>, pids': seq<int>,
                   kids: set<int>, kids': set<int>, before: set<int>)
    requires pids == Pids(runs) && Waiting(kids, before, pids, 0)
    requires if run.pid < 0 then pids' == pids && kids' == kids
             else pids' == pids + [run.pid] && kids' == kids + {run.pid} && run.pid !in kids
    ensures pids' == Pids(runs + [run]) && Waiting(kids', before, pids', 0)
  {
    assert (runs + [run])[..|runs|] == runs;
    if run.pid >= 0 { WaitingMore(kids, before, pids, run.pid); }
  }

  lemma AllWaited(kids: set<int>, before: set<int>, pids: seq<int>, k: nat)
    requires Waiting(kids, before, pids, k) && k == |pids|
    ensures kids == before
  {
    assert pids[k..] == [];
    assert forall p :: p in kids <==> p in before;
  }

  /** One more stage result. */
  lemma Codes(rs: seq<int>, r: int)
    ensures FirstError(rs + [r]) == (if FirstError(rs) != 0 then FirstError(rs) else if r < 0 then r else 0)
    ensures LastStatus(rs + [r]) == if r >= 0 then r else LastStatus(rs)
  {
    assert (rs + [r])[..|rs|] == rs;
  }

  /** The first i stages have been waited for; next is the next child to wait for. */
  ghost predicate Reaped(runs: seq<StageRun>, i: nat, next: nat, rs: seq<int>, pids: seq<int>,
                         kids: set<int>, before: set<int>, base: seq<Event>, log: seq<Event>)
  {
    && i <= |runs| && |rs| == i && pids == Pids(runs) && next == |Pids(runs[..i])|
    && Waiting(kids, before, pids, next) && log == base + Waits(runs[..i], rs)
    && forall j :: 0 <= j < i ==> if runs[j].pid >= 0 then rs[j] >= 0 else rs[j] == runs[j].code
  }

  lemma ReapNext(runs: seq<StageRun>, i: nat, next: nat, rs: seq<int>, pids: seq<int>,
                 kids: set<int>, before: set<int>, base: seq<Event>, log: seq<Event>)
    requires i < |runs| && Reaped(runs, i, next, rs, pids, kids, before, base, log)
    ensures runs[i].pid >= 0 ==> next < |pids| && pids[next] == runs[i].pid
  {
    PidsAt(runs, i);
  }

  lemma ReapStep(runs: seq<StageRun>, i: nat, next: nat, rs: seq<int>, pids: seq<int>,
                 kids: set<int>, before: set<int>, base: seq<Event>, log: seq<Event>,
                 r: int, next': nat, kids': set<int>, log': seq<Event>)
    requires i < |runs| && Reaped(runs, i, next, rs, pids, kids, before, base, log)
    requires Waiting(kids', before, pids, next')
    requires if runs[i].pid >= 0 then r >= 0 && next' == next + 1 && log' == log + [Waited(runs[i].pid, r)]
             else r == runs[i].code && next' == next && log' == log
    ensures Reaped(runs, i + 1, next', rs + [r], pids, kids', before, base, log')
  {
    PidsAt(runs, i);
    assert (rs + [r])[..i] == rs;
    assert runs[..i + 1][..i] == runs[..i];
    var w := Waits(runs[..i], rs);
    if runs[i].pid >= 0 {
      assert base + w + [Waited(runs[i].pid, r)] == base + (w + [Waited(runs[i].pid, r)]);
    } else {
      assert w + [] == w;
    }
  }

  lemma ReapedAll(runs: seq<StageRun>, next: nat, rs: seq<int>, pids: seq<int>,
                  kids: set<int>, before: set<int>, base: seq<Event>, log: seq<Event>)
    requires Reaped(runs, |runs|, next, rs, pids, kids, before, base, log)
    ensures kids == before && log == base + Waits(runs, rs)
    ensures forall i :: 0 <= i < |runs| ==> if runs[i].pid >= 0 then rs[i] >= 0 else rs[i] == runs[i].code
  {
    assert runs[..|runs|] == runs;
    AllWaited(kids, before, pids, next);
  }
}
