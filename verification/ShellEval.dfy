/** The build shell's evaluator (src/build_shell.c:1104-1584): descriptors saved and
    restored, pipeline stages forked before any of them is waited for. What open,
    pipe, fork and a child's exit answer is left free, so every contract holds for
    every outcome. */
module ShellEval {
  import opened ShellParser
  import opened ShellRaw
  import opened ShellRuns

  method Fresh(s: set<int>) returns (n: int)
    ensures n >= 0 && n !in s
  {
    ghost var bound := Bounded(s);
    SomeFresh(s, bound);
    n :| n >= 0 && n !in s;
  }

  /** The evaluator's context, with the parts of the system it uses: the open
      descriptors, the foreground children not yet waited for, and what it did. */
  class Shell {
    var inputFd: int
    var outputFd: int
    var bg: bool
    var deferWait: bool
    var deferred: seq<int>
    var open: set<int>
    var kids: set<int>
    var log: seq<Event>

    constructor ()
      ensures inputFd == -1 && outputFd == -1 && !bg && !deferWait && deferred == []
      ensures open == {} && kids == {} && log == []
    {
      inputFd, outputFd, bg, deferWait, deferred := -1, -1, false, false, [];
      open, kids, log := {}, {}, [];
    }

    // ---------- the system ----------

    method Open(d: Direction, file: string) returns (fd: int)
      modifies this`open, this`log
      ensures fd == -1 ==> open == old(open) && log == old(log) + [Refused(d, file)]
      ensures fd != -1 ==> fd >= 0 && fd !in old(open) && open == old(open) + {fd}
                           && log == old(log) + [Opened(d, file, fd)]
    {
      var fails: bool := *;
      if fails {
        fd := -1;
        log := log + [Refused(d, file)];
      } else {
        fd := Fresh(open);
        open := open + {fd};
        log := log + [Opened(d, file, fd)];
      }
    }

    method MakePipe() returns (ok: bool, r: int, w: int)
      modifies this`open, this`log
      ensures !ok ==> open == old(open) && log == old(log)
      ensures ok ==> r >= 0 && w >= 0 && r != w && r !in old(open) && w !in old(open)
                     && open == old(open) + {r, w} && log == old(log) + [Piped(r, w)]
    {
      ok, r, w := *, -1, -1;
      if ok {
        r := Fresh(open);
        w := Fresh(open + {r});
        open := open + {r, w};
        log := log + [Piped(r, w)];
      }
    }

    /** Only an open descriptor may be closed. */
    method Close(fd: int)
      requires fd in open
      modifies this`open, this`log
      ensures open == old(open) - {fd} && log == old(log) + [Closed(fd)]
    {
      open := open - {fd};
      log := log + [Closed(fd)];
    }

    /** Only a child not yet waited for may be waited for. */
    method Wait(pid: int) returns (status: nat)
      requires pid in kids
      modifies this`kids, this`log
      ensures kids == old(kids) - {pid} && log == old(log) + [Waited(pid, status)]
    {
      status :| status >= 0;
      kids := kids - {pid};
      log := log + [Waited(pid, status)];
    }

    // ---------- commands ----------

    /** command_execute over one command's words. Whether it is refused, a builtin,
        or fails to fork is left free. */
    method Execute(w: Ast) returns (rc: int)
      requires IsWords(w)
      modifies this`deferred, this`kids, this`log
      ensures old(log) <= log
      ensures var t := log[|old(log)|..];
              CommandTrace(w, inputFd, outputFd, bg, t) && Returns(w, t, rc)
      ensures var pid := LeftPid(w, log[|old(log)|..]);
              if pid < 0 then deferred == old(deferred) && kids == old(kids)
              else deferWait && !bg && |old(deferred)| < MaxDeferred && pid !in old(kids)
                   && deferred == old(deferred) + [pid] && kids == old(kids) + {pid}
    {
      var denied: bool := *;
      if denied {
        rc := NoRun(w, ErrPerm);
        return;
      }
      var builtin: bool := *;
      if builtin && (!deferWait || bg) {
        rc := *;
        log := log + [Ran(w, inputFd, outputFd, bg, -1)];
        return;
      }
      if deferWait && !bg && |deferred| >= MaxDeferred {
        rc := NoRun(w, ErrPipe);
        return;
      }
      var forked: bool := *;
      if !forked {
        rc := NoRun(w, ErrFork);
        return;
      }
      if bg {
        log := log + [Ran(w, inputFd, outputFd, bg, -1)];
        return 0;
      }
      var pid := Fresh(kids);
      kids := kids + {pid};
      log := log + [Ran(w, inputFd, outputFd, bg, pid)];
      if deferWait {
        deferred := deferred + [pid];
        return 0;
      }
      rc := Wait(pid);
    }

    method NoRun(w: Ast, code: int) returns (rc: int)
      requires code < 0
      modifies this`log
      ensures rc == code && log == old(log) + [NotRun(w, code)]
    {
      log := log + [NotRun(w, code)];
      rc := code;
    }

    /** ast_exec on a command: eval_redirection down to eval_commandtail. */
    method ExecCommand(a: Ast) returns (rc: int)
      requires IsCommand(a)
      modifies this`inputFd, this`outputFd, this`deferred, this`open, this`kids, this`log
      ensures inputFd == old(inputFd) && outputFd == old(outputFd) && open == old(open)
      ensures old(log) <= log
      ensures var t := log[|old(log)|..];
              CommandTrace(a, inputFd, outputFd, bg, t) && Returns(a, t, rc)
      ensures var pid := LeftPid(a, log[|old(log)|..]);
              if pid < 0 then deferred == old(deferred) && kids == old(kids)
              else deferWait && !bg && |old(deferred)| < MaxDeferred && pid !in old(kids)
                   && deferred == old(deferred) + [pid] && kids == old(kids) + {pid}
      decreases a, 1
    {
      if a.Redir? {
        rc := EvalRedirection(a);
      } else {
        rc := Execute(a);
      }
    }

    /** eval_redirection. */
    method EvalRedirection(a: Ast) returns (rc: int)
      requires IsCommand(a) && a.Redir?
      modifies this`inputFd, this`outputFd, this`deferred, this`open, this`kids, this`log
      ensures inputFd == old(inputFd) && outputFd == old(outputFd) && open == old(open)
      ensures old(log) <= log
      ensures var t := log[|old(log)|..];
              CommandTrace(a, inputFd, outputFd, bg, t) && Returns(a, t, rc)
      ensures var pid := LeftPid(a, log[|old(log)|..]);
              if pid < 0 then deferred == old(deferred) && kids == old(kids)
              else deferWait && !bg && |old(deferred)| < MaxDeferred && pid !in old(kids)
                   && deferred == old(deferred) + [pid] && kids == old(kids) + {pid}
      decreases a, 0
    {
      var savedInput, savedOutput := inputFd, outputFd;
      var fd := Open(a.dir, a.file);
      if fd == -1 {
        var listed: bool := *;
        return if listed then ErrPerm else ErrGeneric;
      }
      if a.dir.In? { inputFd := fd; } else { outputFd := fd; }
      ghost var before := log;
      rc := ExecCommand(a.body);
      ghost var inner := log;
      Close(fd);
      inputFd, outputFd := savedInput, savedOutput;
      Around(a, old(log), before, inner, log, fd);
    }

    // ---------- pipelines ----------

    /** One stage's result: what it returned, or the status of its child. */
    method StageResult(code: int, isDeferred: bool, next: nat, ghost before: set<int>) returns (r: int, next': nat)
      requires Waiting(kids, before, deferred, next) && (isDeferred ==> next < |deferred|)
      modifies this`kids, this`log
      ensures Waiting(kids, before, deferred, next')
      ensures if isDeferred then r >= 0 && next' == next + 1 && log == old(log) + [Waited(deferred[next], r)]
              else r == code && next' == next && log == old(log)
    {
      r, next' := code, next;
      if isDeferred {
        WaitingLess(kids, before, deferred, next);
        r := Wait(deferred[next]);
        next' := next + 1;
      }
    }

    /** wait_deferred_pipeline over the first n stages. */
    method WaitDeferred(codes: array<int>, defers: array<bool>, n: nat, ghost runs: seq<StageRun>,
                        ghost before: set<int>)
      returns (rc: int, ghost rs: seq<int>)
      requires n == |runs| && Filled(runs, codes[..], defers[..])
      requires deferred == Pids(runs) && Waiting(kids, before, deferred, 0)
      modifies this`deferred, this`kids, this`log
      ensures |rs| == n && rc == Outcome(rs) && deferred == [] && kids == before
      ensures log == old(log) + Waits(runs, rs)
      ensures forall i :: 0 <= i < n ==> if runs[i].pid >= 0 then rs[i] >= 0 else rs[i] == runs[i].code
    {
      var lastStatus, errorRc, next, i := 0, 0, 0, 0;
      rs := [];
      while i < n
        invariant i <= n && Reaped(runs, i, next, rs, deferred, kids, before, old(log), log)
        invariant errorRc == FirstError(rs) && lastStatus == LastStatus(rs)
      {
        var r: int;
        r, next := WaitStage(codes, defers, i, next, runs, rs, before, old(log));
        if r >= 0 {
          lastStatus := r;
        } else if errorRc == 0 {
          errorRc := r;
        }
        Codes(rs, r);
        rs := rs + [r];
        i := i + 1;
      }
      ReapedAll(runs, next, rs, deferred, kids, before, old(log), log);
      deferred := [];
      rc := if errorRc != 0 then errorRc else lastStatus;
    }

    method WaitStage(codes: array<int>, defers: array<bool>, i: nat, next: nat, ghost runs: seq<StageRun>,
                     ghost rs: seq<int>, ghost before: set<int>, ghost base: seq<Event>)
      returns (r: int, next': nat)
      requires i < |runs| && Filled(runs, codes[..], defers[..])
      requires Reaped(runs, i, next, rs, deferred, kids, before, base, log)
      modifies this`kids, this`log
      ensures Reaped(runs, i + 1, next', rs + [r], deferred, kids, before, base, log)
    {
      ReapNext(runs, i, next, rs, deferred, kids, before, base, log);
      assert codes[..][i] == runs[i].code && defers[..][i] == (runs[i].pid >= 0);
      r, next' := StageResult(codes[i], defers[i], next, before);
      ReapStep(runs, i, next, rs, deferred, old(kids), before, base, old(log), r, next', kids, log);
    }

    /** One stage run with the pipe ends already in place (PIPELINE_RUN_STAGE). */
    method RunStage(a: Ast, codes: array<int>, defers: array<bool>, count: nat, ghost p: Progress)
      returns (ghost p': Progress)
      requires deferWait && count == |p.runs| < MaxDeferred && codes.Length == defers.Length == MaxDeferred
      requires p.Holds(bg, log, deferred, kids, codes[..], defers[..])
      requires p.AtStage(a, inputFd, outputFd)
      modifies this`inputFd, this`outputFd, this`deferred, this`open, this`kids, this`log, codes, defers
      ensures inputFd == old(inputFd) && outputFd == old(outputFd) && open == old(open)
      ensures old(log) <= log && |p'.runs| == count + 1 && p' == p.(runs := p'.runs)
      ensures p'.Holds(bg, log, deferred, kids, codes[..], defers[..])
    {
      var had := |deferred|;
      var rc := ExecCommand(a);
      ghost var pid := LeftPid(a, log[|old(log)|..]);
      ghost var run := StageRun(inputFd, outputFd, |old(log)|, |log|, rc, pid);
      codes[count] := rc;
      defers[count] := |deferred| > had;
      p' := p.(runs := p.runs + [run]);
      CommandMakesNone(a, inputFd, outputFd, bg, log[|old(log)|..]);
      MadeMore(old(log), log, p.base, p.pipes, log[|old(log)|..]);
      LinkedMore(p, bg, old(log), log, a, run);
      FilledMore(p.runs, run, old(codes[..]), old(defers[..]), codes[..], defers[..]);
      ForkedMore(p.runs, run, old(deferred), deferred, old(kids), kids, p.before);
    }

    /** A pipe made for the next stage, or none. */
    method NextPipe(codes: array<int>, defers: array<bool>, ghost p: Progress)
      returns (ok: bool, r: int, w: int, ghost p': Progress)
      requires p.Holds(bg, log, deferred, kids, codes[..], defers[..])
      modifies this`open, this`log
      ensures old(log) <= log && p'.Holds(bg, log, deferred, kids, codes[..], defers[..])
      ensures !ok ==> p' == p && open == old(open)
      ensures ok ==> r >= 0 && w >= 0 && r != w && r !in old(open) && w !in old(open)
                     && open == old(open) + {r, w} && p' == p.(pipes := p.pipes + [(r, w)])
    {
      ok, r, w := MakePipe();
      p' := if ok then p.(pipes := p.pipes + [(r, w)]) else p;
      LinkedGrows(p.stages, p.runs, p.pipes, p'.pipes, bg, old(log), log, p.base);
      if ok {
        OneEvent(Piped(r, w));
        MadeMore(old(log), log, p.base, p.pipes, [Piped(r, w)]);
      }
    }

    method CloseHeld(fd: int, codes: array<int>, defers: array<bool>, ghost p: Progress)
      requires fd in open && p.Holds(bg, log, deferred, kids, codes[..], defers[..])
      modifies this`open, this`log
      ensures open == old(open) - {fd} && old(log) <= log
      ensures p.Holds(bg, log, deferred, kids, codes[..], defers[..])
    {
      Close(fd);
      HoldsOn(p, bg, old(log), Closed(fd), deferred, kids, codes[..], defers[..]);
    }

    /** A stage, then the two pipe ends no later stage needs. */
    method RunAndClose(a: Ast, codes: array<int>, defers: array<bool>, count: nat, w: int, prevRead: int,
                       ghost p: Progress)
      returns (ghost p': Progress)
      requires deferWait && count == |p.runs| < MaxDeferred && codes.Length == defers.Length == MaxDeferred
      requires p.Holds(bg, log, deferred, kids, codes[..], defers[..])
      requires p.AtStage(a, inputFd, outputFd) && w in open && prevRead in open && w != prevRead
      modifies this`inputFd, this`outputFd, this`deferred, this`open, this`kids, this`log, codes, defers
      ensures open == old(open) - {w} - {prevRead}
      ensures old(log) <= log && |p'.runs| == count + 1 && p' == p.(runs := p'.runs)
      ensures p'.Holds(bg, log, deferred, kids, codes[..], defers[..])
    {
      p' := RunStage(a, codes, defers, count, p);
      CloseHeld(w, codes, defers, p');
      CloseHeld(prevRead, codes, defers, p');
    }

    /** The stages of a pipeline between the first and the last, one at a time: a pipe
        to the next stage, the stage, then the ends no later stage needs closed. With
        all slots taken it stops, the new pipe still open. */
    method RunMiddle(cur: Ast, codes: array<int>, defers: array<bool>, count: nat, prevRead: int,
                     ghost p: Progress, ghost open0: set<int>)
      returns (ok: bool, prevRead': int, ghost p': Progress)
      requires deferWait && codes.Length == defers.Length == MaxDeferred
      requires p.Holds(bg, log, deferred, kids, codes[..], defers[..])
      requires p.Between(cur, count, prevRead, open, open0) && cur.Pipe? && inputFd == prevRead
      modifies this`inputFd, this`outputFd, this`deferred, this`open, this`kids, this`log, codes, defers
      ensures old(log) <= log
      ensures p'.Holds(bg, log, deferred, kids, codes[..], defers[..])
      ensures p'.stages == p.stages && p'.base == p.base && p'.before == p.before
      ensures if ok then p'.Between(cur.right, count + 1, prevRead', open, open0) && inputFd == prevRead'
              else prevRead' == prevRead && p'.Stopped(p, open, old(open))
    {
      var r: int, w: int;
      ok, r, w, p' := NextPipe(codes, defers, p);
      prevRead' := prevRead;
      if !ok { return; }
      outputFd := w;
      if count >= MaxDeferred { return false, prevRead, p'; }
      NextIs(p, p', cur, count, prevRead, r, w, open0);
      p' := RunAndClose(cur.left, codes, defers, count, w, prevRead, p');
      prevRead', inputFd := r, r;
      Advanced(p, p', cur, count, prevRead, r, w, open, open0);
    }

    method RunFirst(a: Ast, codes: array<int>, defers: array<bool>, ghost p: Progress)
      returns (ok: bool, prevRead: int, ghost p': Progress)
      requires deferWait && codes.Length == defers.Length == MaxDeferred && a.Pipe? && IsRawPipeline(a)
      requires p == Progress(Stages(a), [], [], |log|, kids) && deferred == []
      modifies this`inputFd, this`outputFd, this`deferred, this`open, this`kids, this`log, codes, defers
      ensures old(log) <= log
      ensures p'.Holds(bg, log, deferred, kids, codes[..], defers[..])
      ensures p'.stages == p.stages && p'.base == p.base && p'.before == p.before
      ensures if ok then p'.Between(a.right, 1, prevRead, open, old(open)) && inputFd == prevRead
              else p' == p && prevRead == -1 && open == old(open)
    {
      prevRead := -1;
      var r: int, w: int;
      ok, r, w, p' := NextPipe(codes, defers, p);
      if !ok { return; }
      inputFd, outputFd := -1, w;
      p' := RunStage(a.left, codes, defers, 0, p');
      CloseHeld(w, codes, defers, p');
      prevRead, inputFd := r, r;
      assert open == old(open) + {r};
      assert p'.stages[1..] == Stages(a.right);
    }

    /** The loop over the stages between the first and the last. */
    method RunMiddles(a: Ast, codes: array<int>, defers: array<bool>, first: int, ghost p: Progress,
                      ghost open0: set<int>)
      returns (ok: bool, cur: Ast, count: nat, prevRead: int, ghost p': Progress)
      requires deferWait && codes.Length == defers.Length == MaxDeferred
      requires p.Holds(bg, log, deferred, kids, codes[..], defers[..])
      requires p.Between(a, 1, first, open, open0) && inputFd == first
      modifies this`inputFd, this`outputFd, this`deferred, this`open, this`kids, this`log, codes, defers
      ensures old(log) <= log && count == |p'.runs|
      ensures p'.Holds(bg, log, deferred, kids, codes[..], defers[..])
      ensures p'.stages == p.stages && p'.base == p.base && p'.before == p.before
      ensures if ok then !cur.Pipe? && p'.Between(cur, count, prevRead, open, open0) && inputFd == prevRead
              else p'.Ended(prevRead, open, open0) && count < |p.stages| && p'.Short()
    {
      ok, cur, count, prevRead, p' := true, a, 1, first, p;
      while cur.Pipe?
        invariant ok && old(log) <= log
        invariant p'.Holds(bg, log, deferred, kids, codes[..], defers[..])
        invariant p'.stages == p.stages && p'.base == p.base && p'.before == p.before
        invariant p'.Between(cur, count, prevRead, open, open0) && inputFd == prevRead
        decreases cur
      {
        ghost var q, was := p', open;
        ok, prevRead, p' := RunMiddle(cur, codes, defers, count, prevRead, p', open0);
        if !ok {
          StoppedEnds(q, p', cur, count, prevRead, was, open, open0);
          return;
        }
        count := count + 1;
        cur := cur.right;
      }
    }

    method RunLast(cur: Ast, codes: array<int>, defers: array<bool>, count: nat, prevRead: int,
                   ghost p: Progress, ghost open0: set<int>)
      returns (complete: bool, ghost p': Progress)
      requires deferWait && codes.Length == defers.Length == MaxDeferred && !cur.Pipe? && !cur.Nil?
      requires p.Holds(bg, log, deferred, kids, codes[..], defers[..])
      requires p.Between(cur, count, prevRead, open, open0)
      modifies this`inputFd, this`outputFd, this`deferred, this`open, this`kids, this`log, codes, defers
      ensures old(log) <= log && |p.stages| == count + 1
      ensures p'.Holds(bg, log, deferred, kids, codes[..], defers[..])
      ensures p'.stages == p.stages && p'.base == p.base && p'.before == p.before
      ensures |p'.runs| == if complete then count + 1 else count
      ensures p'.Ended(prevRead, open, open0)
    {
      outputFd, inputFd := -1, prevRead;
      LastStage(p, cur, count, prevRead, open, open0);
      if count >= MaxDeferred { return false, p; }
      p' := RunStage(cur, codes, defers, count, p);
      complete := true;
    }

    /** What the loop left over: the last stage, or nothing. */
    method RunTail(a: Ast, cur: Ast, codes: array<int>, defers: array<bool>, count: nat, prevRead: int,
                   ghost p: Progress, ghost open0: set<int>)
      returns (complete: bool, crashed: bool, ghost p': Progress)
      requires deferWait && codes.Length == defers.Length == MaxDeferred && !cur.Pipe?
      requires IsRawPipeline(a) && p.stages == Stages(a)
      requires p.Holds(bg, log, deferred, kids, codes[..], defers[..])
      requires p.Between(cur, count, prevRead, open, open0)
      modifies this`inputFd, this`outputFd, this`deferred, this`open, this`kids, this`log, codes, defers
      ensures old(log) <= log && |p.stages| == count + 1
      ensures p'.Holds(bg, log, deferred, kids, codes[..], defers[..])
      ensures p'.stages == p.stages && p'.base == p.base && p'.before == p.before
      ensures |p'.runs| == if complete then count + 1 else count
      ensures !crashed ==> p'.Ended(prevRead, open, open0)
      ensures crashed <==> !IsPipeline(a) && !p'.Short()
      ensures crashed ==> p' == p && !complete
    {
      if cur.Nil? {
        MissingStage(a, p, count);
        return false, true, p;
      }
      LastFound(a, p, cur, count);
      complete, p' := RunLast(cur, codes, defers, count, prevRead, p, open0);
      crashed := false;
    }

    /** eval_pipeline up to its cleanup. Where the pipeline lacks its last stage the code
        dereferences a null pointer: crashed. */
    method RunStages(a: Ast, codes: array<int>, defers: array<bool>, ghost p: Progress)
      returns (complete: bool, crashed: bool, count: nat, prevRead: int, ghost p': Progress)
      requires deferWait && codes.Length == defers.Length == MaxDeferred && a.Pipe? && IsRawPipeline(a)
      requires p == Progress(Stages(a), [], [], |log|, kids) && deferred == []
      modifies this`inputFd, this`outputFd, this`deferred, this`open, this`kids, this`log, codes, defers
      ensures old(log) <= log && count == |p'.runs|
      ensures p'.Holds(bg, log, deferred, kids, codes[..], defers[..])
      ensures p'.stages == p.stages && p'.base == p.base && p'.before == p.before
      ensures complete <==> count == |p.stages|
      ensures !crashed ==> p'.Ended(prevRead, open, old(open))
      ensures crashed <==> !IsPipeline(a) && !p'.Short()
      ensures crashed ==> |p'.runs| == |p'.pipes| == |p.stages| - 1
    {
      crashed := false;
      var ok: bool, cur: Ast;
      ok, prevRead, p' := RunFirst(a, codes, defers, p);
      if !ok { return false, false, 0, prevRead, p'; }
      ok, cur, count, prevRead, p' := RunMiddles(a.right, codes, defers, prevRead, p', old(open));
      if !ok { return false, false, count, prevRead, p'; }
      complete, crashed, p' := RunTail(a, cur, codes, defers, count, prevRead, p', old(open));
      if complete { count := count + 1; }
    }

    /** The last read end closed, then every child forked so far waited for. */
    method Cleanup(codes: array<int>, defers: array<bool>, count: nat, prevRead: int, ghost p: Progress,
                   ghost open0: set<int>)
      returns (rc: int, ghost rs: seq<int>)
      requires count == |p.runs| && p.Holds(bg, log, deferred, kids, codes[..], defers[..])
      requires p.Ended(prevRead, open, open0)
      modifies this`deferred, this`open, this`kids, this`log
      ensures open == open0 + p.Leaked() && kids == p.before && deferred == [] && old(log) <= log
      ensures |rs| == count && rc == Outcome(rs) && WaitedAtEnd(p.runs, rs, log)
      ensures Linked(p.stages, p.runs, p.pipes, bg, log, p.base) && Made(log, p.base, p.pipes)
    {
      if prevRead != -1 {
        CloseHeld(prevRead, codes, defers, p);
      }
      ghost var mid := log;
      rc, rs := WaitDeferred(codes, defers, count, p.runs, p.before);
      WaitsLast(p, bg, mid, log, rs);
      WaitsMakeNone(p.runs, rs);
      MadeMore(mid, log, p.base, p.pipes, Waits(p.runs, rs));
    }

    /** eval_pipeline. It crashes exactly when the last stage is missing and the stages
        before it all had their pipe and their slot. */
    method EvalPipeline(a: Ast) returns (rc: int, crashed: bool, ghost p: Progress, ghost rs: seq<int>)
      requires a.Pipe? && IsRawPipeline(a)
      modifies this`inputFd, this`outputFd, this`deferWait, this`deferred, this`open, this`kids, this`log
      ensures old(log) <= log && p.stages == Stages(a)
      ensures Linked(p.stages, p.runs, p.pipes, bg, log, |old(log)|) && Made(log, |old(log)|, p.pipes)
      ensures crashed <==> !IsPipeline(a) && !p.Short()
      ensures crashed ==> |p.runs| == |p.pipes| == |p.stages| - 1
      ensures !crashed ==>
        && inputFd == old(inputFd) && outputFd == old(outputFd) && deferWait == old(deferWait)
        && kids == old(kids) && deferred == []
        && p.Sized() && open == old(open) + p.Leaked() && p.Leaked() !! old(open)
        && |rs| == |p.runs| && WaitedAtEnd(p.runs, rs, log)
        && rc == if |rs| == |Stages(a)| then Outcome(rs) else ErrPipe
    {
      var savedInput, savedOutput, savedWait := inputFd, outputFd, deferWait;
      deferWait, deferred := true, [];
      var codes, defers := new int[MaxDeferred], new bool[MaxDeferred];
      p := Progress(Stages(a), [], [], |log|, kids);
      var complete, count, prevRead: int;
      complete, crashed, count, prevRead, p := RunStages(a, codes, defers, p);
      rc, rs := ErrPipe, [];
      if crashed { return; }
      rc, rs := Cleanup(codes, defers, count, prevRead, p, old(open));
      if !complete { rc := ErrPipe; }
      deferWait := savedWait;
      inputFd, outputFd := savedInput, savedOutput;
    }

    // ---------- lists ----------

    /** ast_exec on a pipeline or a single command. */
    method ExecPipeline(a: Ast) returns (rc: int, crashed: bool)
      requires IsRawPipeline(a) && !deferWait
      modifies this`inputFd, this`outputFd, this`deferWait, this`deferred, this`open, this`kids, this`log
      ensures old(log) <= log && (crashed ==> PipelineCrashed(a, bg, log, |old(log)|))
      ensures !crashed ==>
        && inputFd == old(inputFd) && outputFd == old(outputFd) && !deferWait
        && kids == old(kids) && old(open) <= open
        && (|Stages(a)| <= MaxDeferred + 1 ==> open == old(open))
        && PipelineRan(a, inputFd, outputFd, bg, log, |old(log)|, rc)
    {
      crashed := false;
      if a.Pipe? {
        ghost var p, rs;
        rc, crashed, p, rs := EvalPipeline(a);
        if crashed { assert PipeCrashed(a, p, bg, log, |old(log)|); }
        if !crashed { assert PipeRan(a, p, rs, bg, log, |old(log)|, rc); }
      } else {
        rc := ExecCommand(a);
      }
    }

    /** ast_exec on any tree the parser returns: eval_sequence, eval_and and eval_or over
        pipelines. It crashes where the list comes to a pipe without a right side whose
        stages all had their pipe and their slot, and nowhere else: any other pipeline
        returns, and such a one never does. */
    method AstExec(a: Ast) returns (rc: int, crashed: bool, ghost played: seq<Played>)
      requires (a.Nil? || IsRaw(a)) && !deferWait
      modifies this
      ensures old(log) <= log && (crashed ==> !Evaluable(a))
      ensures crashed ==> Crashes(a, old(bg), played, old(inputFd), old(outputFd), log, |old(log)|)
      ensures !crashed ==>
        && inputFd == old(inputFd) && outputFd == old(outputFd) && !deferWait
        && kids == old(kids) && old(open) <= open && (ShortPipelines(a) ==> open == old(open))
        && (!old(bg) ==> !bg)
        && Plays(a, old(bg), played, rc)
        && Performed(Pipelines(a), played, inputFd, outputFd, log, |old(log)|)
      decreases a, 2
    {
      rc, crashed, played := 0, false, [];
      if IsList(a) {
        rc, crashed, played := ExecList(a);
      } else if !a.Nil? {
        rc, crashed, played := ExecLeaf(a);
      }
    }

    /** eval_sequence, eval_and and eval_or. */
    method ExecList(a: Ast) returns (rc: int, crashed: bool, ghost played: seq<Played>)
      requires IsList(a) && IsRaw(a) && !deferWait
      modifies this
      ensures old(log) <= log && (crashed ==> !Evaluable(a))
      ensures crashed ==> Crashes(a, old(bg), played, old(inputFd), old(outputFd), log, |old(log)|)
      ensures !crashed ==>
        && inputFd == old(inputFd) && outputFd == old(outputFd) && !deferWait
        && kids == old(kids) && old(open) <= open && (ShortPipelines(a) ==> open == old(open))
        && (!old(bg) ==> !bg)
        && Plays(a, old(bg), played, rc)
        && Performed(Pipelines(a), played, inputFd, outputFd, log, |old(log)|)
      decreases a, 1
    {
      played := [];
      if a.Background? { bg := true; }
      ghost var head: Played;
      rc, crashed, head := ExecFirst(a);
      if crashed { return; }
      rc, crashed, played := ExecRest(a, rc, head, old(bg), |old(log)|);
      if a.Background? && !crashed { bg := false; }
    }

    /** What follows the list's first pipeline, which returned code. */
    method ExecRest(a: Ast, code: int, ghost head: Played, ghost bg0: bool, ghost base: nat)
      returns (rc: int, crashed: bool, ghost played: seq<Played>)
      requires IsList(a) && IsRaw(a) && !deferWait && bg == (bg0 || a.Background?)
      requires head == Played(code, bg, |log|) && PipelineRan(a.left, inputFd, outputFd, bg, log, base, code)
      modifies this
      ensures old(log) <= log && (crashed ==> !Evaluable(a))
      ensures crashed ==> Crashes(a, bg0, played, old(inputFd), old(outputFd), log, base)
      ensures !crashed ==>
        && inputFd == old(inputFd) && outputFd == old(outputFd) && !deferWait
        && kids == old(kids) && old(open) <= open && (ShortPipelines(a.right) ==> open == old(open))
        && (!old(bg) ==> !bg)
        && Plays(a, bg0, played, rc)
        && Performed(Pipelines(a), played, inputFd, outputFd, log, base)
      decreases a, 0
    {
      ghost var rest: seq<Played> := [];
      rc, crashed := code, false;
      if GoesOn(a, code) {
        rc, crashed, rest := AstExec(a.right);
      }
      played := [head] + rest;
      ListEnds(a, bg0, head, rest, rc, crashed, old(inputFd), old(outputFd), old(log), log, base);
    }

    /** A list of one pipeline. */
    method ExecLeaf(a: Ast) returns (rc: int, crashed: bool, ghost played: seq<Played>)
      requires !IsList(a) && IsRawPipeline(a) && !deferWait
      modifies this`inputFd, this`outputFd, this`deferWait, this`deferred, this`open, this`kids, this`log
      ensures old(log) <= log && (crashed ==> played == [] && PipelineCrashed(a, bg, log, |old(log)|))
      ensures !crashed ==>
        && inputFd == old(inputFd) && outputFd == old(outputFd) && !deferWait
        && kids == old(kids) && old(open) <= open
        && (|Stages(a)| <= MaxDeferred + 1 ==> open == old(open))
        && played == [Played(rc, bg, |log|)]
        && Performed([a], played, inputFd, outputFd, log, |old(log)|)
    {
      rc, crashed := ExecPipeline(a);
      played := [];
      if crashed { return; }
      played := [Played(rc, bg, |log|)];
      PerformedFirst(a, [], played[0], [], inputFd, outputFd, log, log, |old(log)|);
    }

    /** The first pipeline of a list. */
    method ExecFirst(a: Ast) returns (rc: int, crashed: bool, ghost head: Played)
      requires IsList(a) && IsRawPipeline(a.left) && !deferWait
      modifies this`inputFd, this`outputFd, this`deferWait, this`deferred, this`open, this`kids, this`log
      ensures old(log) <= log && (crashed ==> PipelineCrashed(a.left, bg, log, |old(log)|))
      ensures !crashed ==>
        && inputFd == old(inputFd) && outputFd == old(outputFd) && !deferWait
        && kids == old(kids) && old(open) <= open
        && (|Stages(a.left)| <= MaxDeferred + 1 ==> open == old(open))
        && head == Played(rc, bg, |log|) && PipelineRan(a.left, inputFd, outputFd, bg, log, |old(log)|, rc)
    {
      rc, crashed := ExecPipeline(a.left);
      head := Played(rc, bg, |log|);
    }

    /** posix_shell_inline behind its lexer: parse, then execute. It crashes where the list
        comes to a pipe lacking its right side and all its stages had their pipe and slot,
        so only on tokens with a kept pipe whose command runs into an operator lacking its
        word. */
    method RunTokens(ts: seq<Token>) returns (rc: int, crashed: bool, ghost played: seq<Played>)
      requires ts != [] && !deferWait && !bg
      modifies this
      ensures old(log) <= log
      ensures crashed ==> Crashes(Parse(ts), false, played, old(inputFd), old(outputFd), log, |old(log)|)
      ensures crashed ==> !Parse(ts).Nil? && exists m: nat :: Kept(ts, 0, m) && HalfAt(ts, m)
      ensures Parse(ts).Nil? ==> rc == -1 && log == old(log) && open == old(open) && kids == old(kids)
      ensures !crashed && !Parse(ts).Nil? ==>
        && inputFd == old(inputFd) && outputFd == old(outputFd) && !deferWait && !bg && kids == old(kids)
        && (ShortPipelines(Parse(ts)) ==> open == old(open))
        && Plays(Parse(ts), false, played, rc)
        && Performed(Pipelines(Parse(ts)), played, inputFd, outputFd, log, |old(log)|)
    {
      var a := EvalParser(ts);
      if a.Nil? { return -1, false, []; }
      ParsedReads(ts, a);
      EvaluableExactly(ts);
      rc, crashed, played := AstExec(a);
    }
  }
}
