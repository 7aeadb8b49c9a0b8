/** What a parallel build may do (src/build.c:3351-3380, 3476-3615), as events on
    target states: every event the dispatch loop performs is legal, and legal
    histories have the properties a build promises. Targets are numbered by their
    place in the topological order. */
module Schedule {
  import opened Targets

  datatype State = Pending | Inflight | Done | Failed | Skipped

  /** Start: in-process or forked. ForkFailed never ran. Skip follows a failed or skipped
      dependency; Abandon is how a build without keep-going ends that has stopped. */
  datatype Event =
    | Start(t: nat)
    | Finish(t: nat, ok: bool)
    | ForkFailed(t: nat)
    | Skip(t: nat)
    | Abandon(t: nat)

  /** Dependencies come earlier in the order. */
  ghost predicate Ordered(g: Graph) {
    forall t, i :: 0 <= t < |g| && 0 <= i < |g[t]| ==> g[t][i] < t
  }

  ghost predicate DepsDone(g: Graph, st: seq<State>, t: nat)
    requires |st| == |g| && t < |g| && Ordered(g)
  {
    forall i :: 0 <= i < |g[t]| ==> st[g[t][i]] == Done
  }

  /** target_is_ready. */
  ghost predicate IsReady(g: Graph, st: seq<State>, t: nat)
    requires |st| == |g| && t < |g| && Ordered(g)
  {
    st[t] == Pending && DepsDone(g, st, t)
  }

  ghost predicate Blocked(g: Graph, st: seq<State>, t: nat)
    requires |st| == |g| && t < |g| && Ordered(g)
  {
    exists i :: 0 <= i < |g[t]| && (st[g[t][i]] == Failed || st[g[t][i]] == Skipped)
  }

  function Count(st: seq<State>, s: State): (n: nat)
    ensures n <= |st|
  {
    if st == [] then 0 else Count(st[..|st| - 1], s) + if st[|st| - 1] == s then 1 else 0
  }

  lemma {:induction false} CountUpdate(st: seq<State>, i: nat, v: State, s: State)
    requires i < |st|
    ensures Count(st[i := v], s) == Count(st, s) - (if st[i] == s then 1 else 0) + (if v == s then 1 else 0)
  {
    var n := |st| - 1;
    if i == n {
      assert st[i := v][..n] == st[..n];
    } else {
      CountUpdate(st[..n], i, v, s);
      assert st[i := v][..n] == st[..n][i := v];
    }
  }

  lemma {:induction false} CountZero(st: seq<State>, s: State)
    ensures Count(st, s) == 0 <==> forall i :: 0 <= i < |st| ==> st[i] != s
    ensures Count(st, s) == |st| <==> forall i :: 0 <= i < |st| ==> st[i] == s
  {
    if st != [] { CountZero(st[..|st| - 1], s); }
  }

  // ---------- histories ----------

  function Apply(st: seq<State>, e: Event): seq<State>
    requires e.t < |st|
  {
    match e
    case Start(t) => st[t := Inflight]
    case Finish(t, ok) => st[t := if ok then Done else Failed]
    case ForkFailed(t) => st[t := Failed]
    case Skip(t) => st[t := Skipped]
    case Abandon(t) => st[t := Skipped]
  }

  ghost predicate Allowed(g: Graph, jobs: nat, keepGoing: bool, st: seq<State>, e: Event)
    requires |st| == |g| && Ordered(g)
  {
    && e.t < |g|
    && match e
       case Start(t) => IsReady(g, st, t) && Count(st, Inflight) < jobs
       case Finish(t, ok) => st[t] == Inflight
       case ForkFailed(t) => IsReady(g, st, t)
       case Skip(t) => st[t] == Pending && Blocked(g, st, t)
       case Abandon(t) => st[t] == Pending && !keepGoing && exists f :: 0 <= f < |st| && st[f] == Failed
  }

  predicate Fails(e: Event) {
    e.Finish? && !e.ok
  }

  /** Some target was built, or its child reaped, without success. */
  predicate Failure(log: seq<Event>) {
    log != [] && (Fails(log[|log| - 1]) || Failure(log[..|log| - 1]))
  }

  /** Without keep-going the first such failure stops the build: nothing starts or
      settles any more, and only then are targets abandoned. */
  ghost predicate Follows(keepGoing: bool, log: seq<Event>, e: Event) {
    e.Abandon? <==> !keepGoing && Failure(log)
  }

  lemma FailureMore(log: seq<Event>, e: Event)
    ensures Failure(log + [e]) <==> Failure(log) || Fails(e)
  {
    assert (log + [e])[..|log|] == log;
  }

  lemma {:induction false} FailureAt(log: seq<Event>, j: nat)
    requires j < |log| && Fails(log[j])
    ensures Failure(log)
  {
    if j < |log| - 1 { FailureAt(log[..|log| - 1], j); }
  }

  /** One step of a history: an allowed event takes st to st'. */
  ghost predicate Step(g: Graph, jobs: nat, keepGoing: bool, st: seq<State>, e: Event, st': seq<State>)
    requires Ordered(g)
  {
    |st| == |g| && Allowed(g, jobs, keepGoing, st, e) && st' == Apply(st, e)
  }

  ghost predicate AllPending(g: Graph, st: seq<State>) {
    |st| == |g| && forall t :: 0 <= t < |g| ==> st[t] == Pending
  }

  /** A legal history: from all pending, every step allowed where it stands. */
  ghost predicate Legal(g: Graph, jobs: nat, keepGoing: bool, states: seq<seq<State>>, log: seq<Event>)
    requires Ordered(g)
    decreases |log|
  {
    var n := |log|;
    && |states| == n + 1
    && if n == 0 then AllPending(g, states[0])
       else
         && Legal(g, jobs, keepGoing, states[..n], log[..n - 1])
         && Step(g, jobs, keepGoing, states[n - 1], log[n - 1], states[n])
         && Follows(keepGoing, log[..n - 1], log[n - 1])
  }

  lemma Extend(g: Graph, jobs: nat, keepGoing: bool, states: seq<seq<State>>, log: seq<Event>, e: Event)
    requires Ordered(g) && Legal(g, jobs, keepGoing, states, log) && |states[|log|]| == |g|
    requires Allowed(g, jobs, keepGoing, states[|log|], e) && Follows(keepGoing, log, e)
    ensures Legal(g, jobs, keepGoing, states + [Apply(states[|log|], e)], log + [e])
  {
    var ss, ll := states + [Apply(states[|log|], e)], log + [e];
    assert ss[..|ll|] == states && ll[..|log|] == log;
  }

  lemma {:induction false} LegalStep(g: Graph, jobs: nat, keepGoing: bool, states: seq<seq<State>>, log: seq<Event>,
                                     k: nat)
    requires Ordered(g) && Legal(g, jobs, keepGoing, states, log) && k < |log|
    ensures Step(g, jobs, keepGoing, states[k], log[k], states[k + 1]) && Follows(keepGoing, log[..k], log[k])
    decreases |log|
  {
    var n := |log| - 1;
    if k < n {
      LegalStep(g, jobs, keepGoing, states[..|log|], log[..n], k);
      assert log[..n][..k] == log[..k];
    }
  }

  lemma {:induction false} LegalStart(g: Graph, jobs: nat, keepGoing: bool, states: seq<seq<State>>, log: seq<Event>)
    requires Ordered(g) && Legal(g, jobs, keepGoing, states, log)
    ensures AllPending(g, states[0])
    decreases |log|
  {
    if log != [] { LegalStart(g, jobs, keepGoing, states[..|log|], log[..|log| - 1]); }
  }

  /** What every legal history has established: whatever started, finished or
      failed had all its dependencies done; unless the build stopped, nothing is skipped
      without a failure right below it; at most jobs targets run. */
  ghost predicate Sound(g: Graph, jobs: nat, stopped: bool, st: seq<State>)
    requires |st| == |g| && Ordered(g)
  {
    && (forall t :: 0 <= t < |g| && (st[t] == Inflight || st[t] == Done || st[t] == Failed) ==> DepsDone(g, st, t))
    && (!stopped ==> forall t :: 0 <= t < |g| && st[t] == Skipped ==> Blocked(g, st, t))
    && Count(st, Inflight) <= jobs
  }

  lemma ApplyKeeps(g: Graph, jobs: nat, keepGoing: bool, stopped: bool, st: seq<State>, e: Event)
    requires |st| == |g| && Ordered(g) && Sound(g, jobs, stopped, st) && Allowed(g, jobs, keepGoing, st, e)
    requires e.Abandon? ==> stopped
    ensures Sound(g, jobs, stopped, Apply(st, e))
  {
    var st' := Apply(st, e);
    CountUpdate(st, e.t, st'[e.t], Inflight);
    forall t | 0 <= t < |g| && st'[t] == Skipped && !stopped ensures Blocked(g, st', t) {
      assert Blocked(g, st, t);
      var i :| 0 <= i < |g[t]| && (st[g[t][i]] == Failed || st[g[t][i]] == Skipped);
      assert st'[g[t][i]] == st[g[t][i]];
    }
  }

  ghost predicate HasStopped(keepGoing: bool, log: seq<Event>) {
    !keepGoing && Failure(log)
  }

  lemma {:induction false} LegalSound(g: Graph, jobs: nat, keepGoing: bool, states: seq<seq<State>>, log: seq<Event>,
                                      k: nat)
    requires Ordered(g) && Legal(g, jobs, keepGoing, states, log) && k <= |log|
    ensures |states[k]| == |g| && Sound(g, jobs, HasStopped(keepGoing, log[..k]), states[k])
  {
    if k == 0 {
      LegalStart(g, jobs, keepGoing, states, log);
      CountZero(states[0], Inflight);
    } else {
      LegalSound(g, jobs, keepGoing, states, log, k - 1);
      LegalStep(g, jobs, keepGoing, states, log, k - 1);
      assert log[..k] == log[..k - 1] + [log[k - 1]];
      FailureMore(log[..k - 1], log[k - 1]);
      ApplyKeeps(g, jobs, keepGoing, HasStopped(keepGoing, log[..k]), states[k - 1], log[k - 1]);
    }
  }

  /** In a legal history a target starts only when every dependency is done and a
      job is free, and never a second time. */
  lemma StartsAfterDeps(g: Graph, jobs: nat, keepGoing: bool, states: seq<seq<State>>, log: seq<Event>, k: nat)
    requires Ordered(g) && Legal(g, jobs, keepGoing, states, log) && k < |log| && log[k].Start?
    ensures var t := log[k].t;
      && t < |g| == |states[k]| && states[k][t] == Pending
      && (forall i :: 0 <= i < |g[t]| ==> states[k][g[t][i]] == Done)
      && Count(states[k], Inflight) < jobs
      && (forall j :: 0 <= j < k ==> log[j] != log[k])
  {
    LegalStep(g, jobs, keepGoing, states, log, k);
    forall j | 0 <= j < k ensures log[j] != log[k] { Leaves(g, jobs, keepGoing, states, log, j, k); }
  }

  /** After its first event a target is never pending again. */
  lemma {:induction false} Leaves(g: Graph, jobs: nat, keepGoing: bool, states: seq<seq<State>>, log: seq<Event>,
                                  j: nat, k: nat)
    requires Ordered(g) && Legal(g, jobs, keepGoing, states, log) && j < k <= |log|
    ensures |states[k]| == |g| && log[j].t < |g| && states[k][log[j].t] != Pending
  {
    LegalStep(g, jobs, keepGoing, states, log, k - 1);
    if j < k - 1 { Leaves(g, jobs, keepGoing, states, log, j, k - 1); }
  }

  /** A failed target stays failed. */
  lemma {:induction false} StaysFailed(g: Graph, jobs: nat, keepGoing: bool, states: seq<seq<State>>, log: seq<Event>,
                                       j: nat, k: nat, t: nat)
    requires Ordered(g) && Legal(g, jobs, keepGoing, states, log) && j <= k <= |log|
    requires |states[j]| == |g| && t < |g| && states[j][t] == Failed
    ensures |states[k]| == |g| && states[k][t] == Failed
  {
    if j < k {
      StaysFailed(g, jobs, keepGoing, states, log, j, k - 1, t);
      LegalStep(g, jobs, keepGoing, states, log, k - 1);
    }
  }

  /** A failure in the log shows in the states. */
  lemma FailureShows(g: Graph, jobs: nat, keepGoing: bool, states: seq<seq<State>>, log: seq<Event>)
    requires Ordered(g) && Legal(g, jobs, keepGoing, states, log) && Failure(log)
    ensures |states[|log|]| == |g| && exists t :: 0 <= t < |g| && states[|log|][t] == Failed
  {
    var j := FirstFailure(log);
    LegalStep(g, jobs, keepGoing, states, log, j);
    StaysFailed(g, jobs, keepGoing, states, log, j + 1, |log|, log[j].t);
  }

  // ---------- a build that stops ----------

  /** Without keep-going nothing starts behind a failure. */
  lemma NoStartAfterFailure(g: Graph, jobs: nat, states: seq<seq<State>>, log: seq<Event>, j: nat, k: nat)
    requires Ordered(g) && Legal(g, jobs, false, states, log) && j < k < |log|
    requires Fails(log[j])
    ensures log[k].Abandon?
  {
    FailureAt(log[..k], j);
    LegalStep(g, jobs, false, states, log, k);
  }

  /** Behind a failure at k the targets then pending may be skipped, and nothing else
      changes: what ran then stays in flight. */
  ghost predicate StoppedAfter(was: seq<State>, st: seq<State>) {
    |st| == |was| && forall t :: 0 <= t < |st| ==> st[t] == was[t] || (was[t] == Pending && st[t] == Skipped)
  }

  lemma {:induction false} StopsAt(g: Graph, jobs: nat, states: seq<seq<State>>, log: seq<Event>, j: nat, k: nat)
    requires Ordered(g) && Legal(g, jobs, false, states, log) && j < k <= |log|
    requires Fails(log[j])
    ensures StoppedAfter(states[j + 1], states[k])
  {
    if j + 1 < k {
      StopsAt(g, jobs, states, log, j, k - 1);
      NoStartAfterFailure(g, jobs, states, log, j, k - 1);
      LegalStep(g, jobs, false, states, log, k - 1);
    }
  }

  /** The build stopped at event j: what was pending then is skipped, everything else is
      as it was then. */
  ghost predicate EndsAt(states: seq<seq<State>>, log: seq<Event>, st: seq<State>, j: nat)
    requires |states| == |log| + 1
  {
    && j < |log| && Fails(log[j]) && !Failure(log[..j]) && |states[j + 1]| == |st|
    && forall t :: 0 <= t < |st| ==> st[t] == if states[j + 1][t] == Pending then Skipped else states[j + 1][t]
  }

  lemma {:induction false} FirstFailure(log: seq<Event>) returns (j: nat)
    requires Failure(log)
    ensures j < |log| && Fails(log[j]) && !Failure(log[..j])
    decreases |log|
  {
    var n := |log| - 1;
    assert log == log[..n] + [log[n]];
    FailureMore(log[..n], log[n]);
    if Failure(log[..n]) {
      j := FirstFailure(log[..n]);
      assert log[..n][..j] == log[..j];
    } else {
      j := n;
    }
  }

  // ---------- how a build ends ----------

  ghost predicate Finished(st: seq<State>) {
    forall t :: 0 <= t < |st| ==> st[t] == Done || st[t] == Failed || st[t] == Skipped
  }

  lemma OrderedWf(g: Graph)
    requires Ordered(g)
    ensures Wf(g)
  {
  }

  lemma {:induction false} SkippedHasCause(g: Graph, jobs: nat, st: seq<State>, t: nat)
    requires |st| == |g| && Ordered(g) && Sound(g, jobs, false, st) && t < |g| && st[t] == Skipped
    ensures exists d: nat :: d < |g| && DependsOn(g, t, d) && st[d] == Failed
    decreases t
  {
    OrderedWf(g);
    assert Blocked(g, st, t);
    var i :| 0 <= i < |g[t]| && (st[g[t][i]] == Failed || st[g[t][i]] == Skipped);
    var d := g[t][i];
    ReachesStep(g, t, d);
    if st[d] == Skipped {
      SkippedHasCause(g, jobs, st, d);
      var f: nat :| f < |g| && DependsOn(g, d, f) && st[f] == Failed;
      ReachesTrans(g, t, d, f);
    }
  }

  lemma {:induction false} DoneBelow(g: Graph, jobs: nat, stopped: bool, st: seq<State>, t: nat, d: nat, n: nat)
    requires |st| == |g| && Ordered(g) && Sound(g, jobs, stopped, st)
    requires t < |g| && (st[t] == Done || st[t] == Failed || st[t] == Inflight) && n >= 1 && Chain(g, t, d, n)
    ensures d < |g| && st[d] == Done
    decreases n
  {
    var x :| x in g[t] && Chain(g, x, d, n - 1);
    if n > 1 { DoneBelow(g, jobs, stopped, st, x, d, n - 1); }
  }

  /** A finished build that did not stop skipped exactly the targets with a failed
      transitive dependency. */
  lemma SkippedExactly(g: Graph, jobs: nat, st: seq<State>, t: nat)
    requires |st| == |g| && Ordered(g) && Sound(g, jobs, false, st) && Finished(st) && t < |g|
    ensures st[t] == Skipped <==> exists d: nat :: d < |g| && DependsOn(g, t, d) && st[d] == Failed
  {
    if st[t] == Skipped {
      SkippedHasCause(g, jobs, st, t);
    } else if exists d: nat :: d < |g| && DependsOn(g, t, d) && st[d] == Failed {
      var d: nat :| d < |g| && DependsOn(g, t, d) && st[d] == Failed;
      var n: nat :| n >= 1 && Chain(g, t, d, n);
      DoneBelow(g, jobs, false, st, t, d, n);
    }
  }

  ghost predicate SkipsMatchFailures(g: Graph, st: seq<State>)
    requires |st| == |g|
  {
    forall t :: 0 <= t < |g| ==>
      (st[t] == Skipped <==> exists d: nat :: d < |g| && DependsOn(g, t, d) && st[d] == Failed)
  }

  /** How a legal history ends that did not stop, once nothing is pending or running. */
  lemma LegalEnds(g: Graph, jobs: nat, keepGoing: bool, states: seq<seq<State>>, log: seq<Event>, st: seq<State>)
    requires Ordered(g) && Legal(g, jobs, keepGoing, states, log) && st == states[|log|]
    ensures |st| == |g| && Sound(g, jobs, HasStopped(keepGoing, log), st)
    ensures !HasStopped(keepGoing, log) && Finished(st) ==> SkipsMatchFailures(g, st)
    ensures !HasStopped(keepGoing, log) && Finished(st) && Count(st, Failed) == 0 ==>
              forall t :: 0 <= t < |g| ==> st[t] == Done
    ensures Count(st, Failed) == 0 ==> !Failure(log)
  {
    LegalSound(g, jobs, keepGoing, states, log, |log|);
    assert log[..|log|] == log;
    CountZero(st, Failed);
    if Failure(log) { FailureShows(g, jobs, keepGoing, states, log); }
    if !HasStopped(keepGoing, log) && Finished(st) {
      forall t | 0 <= t < |g|
        ensures st[t] == Skipped <==> exists d: nat :: d < |g| && DependsOn(g, t, d) && st[d] == Failed
      {
        SkippedExactly(g, jobs, st, t);
      }
    }
  }

  /** How one ends that stopped, once nothing is pending: as it stood at its first
      failure, what was pending then being skipped. */
  lemma StoppedEnds(g: Graph, jobs: nat, states: seq<seq<State>>, log: seq<Event>, st: seq<State>)
    requires Ordered(g) && Legal(g, jobs, false, states, log) && st == states[|log|]
    requires Failure(log) && forall t :: 0 <= t < |st| ==> st[t] != Pending
    ensures exists j :: EndsAt(states, log, st, j)
  {
    var j := FirstFailure(log);
    StopsAt(g, jobs, states, log, j, |log|);
    assert EndsAt(states, log, st, j);
  }
}
