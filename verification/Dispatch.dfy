/** The parallel dispatch loop of run_graph (src/build.c:3460-3615): target states,
    job slots and counters updated in place. Which child is reaped, whether a fork
    succeeds and how a target exits are left open. */
module Dispatch {
  import opened Common
  import opened Targets
  import opened Schedule

  /** A job slot; pid 0 is empty. */
  datatype Slot = Slot(pid: int, t: nat)

  function Occupied(s: seq<Slot>): (n: nat)
    ensures n <= |s|
  {
    if s == [] then 0 else Occupied(s[..|s| - 1]) + if s[|s| - 1].pid != 0 then 1 else 0
  }

  lemma {:induction false} OccupiedUpdate(s: seq<Slot>, j: nat, v: Slot)
    requires j < |s|
    ensures Occupied(s[j := v]) == Occupied(s) - (if s[j].pid != 0 then 1 else 0) + (if v.pid != 0 then 1 else 0)
  {
    var n := |s| - 1;
    if j == n {
      assert s[j := v][..n] == s[..n];
    } else {
      OccupiedUpdate(s[..n], j, v);
      assert s[j := v][..n] == s[..n][j := v];
    }
  }

  lemma {:induction false} OccupiedSome(s: seq<Slot>)
    ensures Occupied(s) == 0 <==> forall j :: 0 <= j < |s| ==> s[j].pid == 0
    ensures Occupied(s) == |s| <==> forall j :: 0 <= j < |s| ==> s[j].pid != 0
  {
    if s != [] { OccupiedSome(s[..|s| - 1]); }
  }

  /** Occupied slots and running targets match one to one. */
  ghost predicate Matched(st: seq<State>, slots: seq<Slot>) {
    && (forall j :: 0 <= j < |slots| && slots[j].pid != 0 ==> slots[j].t < |st| && st[slots[j].t] == Inflight)
    && (forall j, k :: 0 <= j < k < |slots| && slots[j].pid != 0 && slots[k].pid != 0 ==>
          slots[j].pid != slots[k].pid && slots[j].t != slots[k].t)
    && (forall t :: 0 <= t < |st| && st[t] == Inflight ==>
      exists j :: 0 <= j < |slots| && slots[j].pid != 0 && slots[j].t == t)
  }

  lemma MatchedStart(st: seq<State>, slots: seq<Slot>, t: nat, j: nat, pid: int)
    requires Matched(st, slots) && t < |st| && st[t] == Pending && j < |slots| && slots[j].pid == 0 && pid != 0
    requires forall k :: 0 <= k < |slots| ==> slots[k].pid != pid
    ensures Matched(st[t := Inflight], slots[j := Slot(pid, t)])
  {
    var st', slots' := st[t := Inflight], slots[j := Slot(pid, t)];
    forall x | 0 <= x < |st'| && st'[x] == Inflight
      ensures exists k :: 0 <= k < |slots'| && slots'[k].pid != 0 && slots'[k].t == x
    {
      if x == t {
        assert slots'[j].t == t;
      } else {
        var k :| 0 <= k < |slots| && slots[k].pid != 0 && slots[k].t == x;
        assert slots'[k] == slots[k];
      }
    }
  }

  lemma MatchedReap(st: seq<State>, slots: seq<Slot>, j: nat, s: State)
    requires Matched(st, slots) && j < |slots| && slots[j].pid != 0 && s != Inflight
    ensures slots[j].t < |st| && Matched(st[slots[j].t := s], slots[j := Slot(0, 0)])
  {
    var st', slots' := st[slots[j].t := s], slots[j := Slot(0, 0)];
    forall x | 0 <= x < |st'| && st'[x] == Inflight
      ensures exists k :: 0 <= k < |slots'| && slots'[k].pid != 0 && slots'[k].t == x
    {
      var k :| 0 <= k < |slots| && slots[k].pid != 0 && slots[k].t == x;
      assert slots'[k] == slots[k];
    }
  }

  lemma MatchedOther(st: seq<State>, slots: seq<Slot>, t: nat, s: State)
    requires Matched(st, slots) && t < |st| && st[t] != Inflight && s != Inflight
    ensures Matched(st[t := s], slots)
  {
    var st' := st[t := s];
    forall x | 0 <= x < |st'| && st'[x] == Inflight
      ensures exists k :: 0 <= k < |slots| && slots[k].pid != 0 && slots[k].t == x
    {
      assert st[x] == Inflight;
    }
  }

  /** inFlight counts both the occupied slots and the running targets. */
  ghost predicate Slotted(st: seq<State>, slots: seq<Slot>, inFlight: nat, nextPid: int) {
    && inFlight == Occupied(slots) && inFlight == Count(st, Inflight) && Matched(st, slots)
    && nextPid > 0 && forall j :: 0 <= j < |slots| ==> slots[j].pid < nextPid
  }

  lemma SlottedOther(st: seq<State>, slots: seq<Slot>, inFlight: nat, nextPid: int, t: nat, s: State)
    requires Slotted(st, slots, inFlight, nextPid) && t < |st| && st[t] != Inflight && s != Inflight
    ensures Slotted(st[t := s], slots, inFlight, nextPid)
  {
    MatchedOther(st, slots, t, s);
    CountUpdate(st, t, s, Inflight);
  }

  lemma SlottedStart(st: seq<State>, slots: seq<Slot>, inFlight: nat, nextPid: int, t: nat, j: nat)
    requires Slotted(st, slots, inFlight, nextPid) && t < |st| && st[t] == Pending && j < |slots| && slots[j].pid == 0
    ensures Slotted(st[t := Inflight], slots[j := Slot(nextPid, t)], inFlight + 1, nextPid + 1)
  {
    MatchedStart(st, slots, t, j, nextPid);
    CountUpdate(st, t, Inflight, Inflight);
    OccupiedUpdate(slots, j, Slot(nextPid, t));
  }

  lemma SlottedReap(st: seq<State>, slots: seq<Slot>, inFlight: nat, nextPid: int, j: nat, s: State)
    requires Slotted(st, slots, inFlight, nextPid) && j < |slots| && slots[j].pid != 0 && s != Inflight
    ensures slots[j].t < |st| && st[slots[j].t] == Inflight && inFlight > 0
    ensures Slotted(st[slots[j].t := s], slots[j := Slot(0, 0)], inFlight - 1, nextPid)
  {
    MatchedReap(st, slots, j, s);
    CountUpdate(st, slots[j].t, s, Inflight);
    OccupiedUpdate(slots, j, Slot(0, 0));
  }

  /** The recorded names: failed targets, none twice. */
  ghost predicate Named(names: seq<nat>, st: seq<State>) {
    Distinct(names) && forall k :: 0 <= k < |names| ==> names[k] < |st| && st[names[k]] == Failed
  }

  /** The states are the last of a legal history. */
  ghost predicate Recorded(g: Graph, jobs: nat, keepGoing: bool, states: seq<seq<State>>, log: seq<Event>,
                           st: seq<State>)
    requires Ordered(g)
  {
    Legal(g, jobs, keepGoing, states, log) && st == states[|log|]
  }

  /** failures counts the failed targets; failed_names, with room for every
      target, lists exactly them. */
  ghost predicate FailuresNamed(st: seq<State>, failures: nat, names: seq<nat>) {
    failures == |names| == Count(st, Failed) <= |st| && Named(names, st)
  }

  lemma FailuresUpdate(st: seq<State>, failures: nat, names: seq<nat>, t: nat, s: State)
    requires FailuresNamed(st, failures, names) && t < |st| && st[t] != Failed
    ensures s != Failed ==> FailuresNamed(st[t := s], failures, names)
    ensures s == Failed ==> failures < |st| && FailuresNamed(st[t := s], failures + 1, names + [t])
  {
    CountUpdate(st, t, s, Failed);
    CountZero(st, Failed);
    NamedUpdate(names, st, t, s);
  }

  lemma NamedUpdate(names: seq<nat>, st: seq<State>, t: nat, s: State)
    requires Named(names, st) && t < |st| && st[t] != Failed
    ensures Named(names, st[t := s])
    ensures s == Failed ==> Named(names + [t], st[t := s])
  {
  }

  /** How targets ended, in order: what their builds returned or their children exited with. */
  function Ends(log: seq<Event>): seq<(nat, bool)> {
    if log == [] then [] else Ends(log[..|log| - 1]) + EndOf(log[|log| - 1])
  }

  function EndOf(e: Event): seq<(nat, bool)> {
    if e.Finish? then [(e.t, e.ok)] else []
  }

  lemma EndsMore(log: seq<Event>, e: Event)
    ensures Ends(log + [e]) == Ends(log) + EndOf(e)
  {
    assert (log + [e])[..|log|] == log;
  }

  /** How much a build still has to do. */
  function Work(st: seq<State>): nat {
    2 * Count(st, Pending) + Count(st, Inflight)
  }

  lemma WorkUpdate(st: seq<State>, t: nat, s: State)
    requires t < |st| && (st[t] == Pending || (st[t] == Inflight && s != Pending)) && s != st[t] && s != Pending
    ensures Work(st[t := s]) < Work(st)
  {
    CountUpdate(st, t, s, Pending);
    CountUpdate(st, t, s, Inflight);
  }

  class Dispatcher {
    const g: Graph
    const jobs: nat
    const keepGoing: bool
    var state: seq<State>
    const slots: array<Slot>
    var failedNames: seq<nat>
    var inFlight: nat
    var failures: nat
    var nextPid: int
    ghost var log: seq<Event>
    ghost var states: seq<seq<State>>
    ghost var answers: seq<(nat, bool)>

    constructor (g: Graph, jobs: nat, keepGoing: bool)
      requires Ordered(g) && jobs > 1
      ensures this.g == g && this.jobs == jobs && this.keepGoing == keepGoing
      ensures Valid() && Running() && log == [] && answers == [] && fresh(slots)
    {
      this.g, this.jobs, this.keepGoing := g, jobs, keepGoing;
      state := seq(|g|, _ => Pending);
      slots := new Slot[jobs](_ => Slot(0, 0));
      failedNames := [];
      inFlight, failures, nextPid := 0, 0, 1;
      log, states, answers := [], [seq(|g|, _ => Pending)], [];
      new;
      CountZero(state, Inflight);
      CountZero(state, Failed);
      OccupiedSome(slots[..]);
    }

    /** The states are those of a legal history; the failures are exactly the
        failed targets, and their names are recorded. */
    ghost predicate Kept()
      reads this
    {
      && Ordered(g) && jobs > 1 && |state| == |g| && slots.Length == jobs
      && Recorded(g, jobs, keepGoing, states, log, state) && FailuresNamed(state, failures, failedNames)
    }

    /** ... and every target ended as its build or its child said. */
    ghost predicate Valid()
      reads this
    {
      Kept() && Ends(log) == answers
    }

    /** One slot per running target, at most jobs of them. */
    ghost predicate InSlots()
      reads this, slots
    {
      Slotted(state, slots[..], inFlight, nextPid)
    }

    /** Until dispatch stops. */
    ghost predicate Running()
      reads this, slots
    {
      InSlots() && !HasStopped(keepGoing, log)
    }

    /** Dispatch has stopped: without keep-going, after a failure, all children reaped. */
    ghost predicate Over()
      reads this
    {
      HasStopped(keepGoing, log) && inFlight == 0
    }

    /** target_is_ready. */
    method TargetIsReady(t: nat) returns (ready: bool)
      requires Valid() && t < |g|
      ensures ready <==> IsReady(g, state, t)
    {
      if state[t] != Pending { return false; }
      for i := 0 to |g[t]|
        invariant forall k :: 0 <= k < i ==> state[g[t][k]] == Done
      {
        if state[g[t][i]] != Done { return false; }
      }
      ready := true;
    }

    /** A target changes state, and the history records why. */
    method SetState(t: nat, s: State, ghost e: Event)
      requires Kept() && Allowed(g, jobs, keepGoing, state, e) && Follows(keepGoing, log, e) && t == e.t
      requires Apply(state, e) == state[t := s] && s != Failed && state[t] != Failed
      requires Ends(log) + EndOf(e) == answers
      modifies this`state, this`log, this`states
      ensures Valid() && state == old(state)[t := s] && log == old(log) + [e]
    {
      EndsMore(log, e);
      FailuresUpdate(state, failures, failedNames, t, s);
      Extend(g, jobs, keepGoing, states, log, e);
      state := state[t := s];
      log, states := log + [e], states + [state];
    }

    method Fail(t: nat, ghost e: Event)
      requires Kept() && Allowed(g, jobs, keepGoing, state, e) && Follows(keepGoing, log, e) && t == e.t
      requires Apply(state, e) == state[t := Failed] && state[t] != Failed
      requires Ends(log) + EndOf(e) == answers
      modifies this`state, this`failedNames, this`log, this`states, this`failures
      ensures Valid() && state == old(state)[t := Failed] && log == old(log) + [e]
    {
      EndsMore(log, e);
      FailuresUpdate(state, failures, failedNames, t, Failed);
      Extend(g, jobs, keepGoing, states, log, e);
      state := state[t := Failed];
      log, states := log + [e], states + [state];
      failedNames := failedNames + [t];
      failures := failures + 1;
    }

    /** propagate_skipped, one pass over the order. */
    method SkipPass() returns (changed: bool)
      requires Valid() && Running()
      modifies this`state, this`log, this`states
      ensures Valid() && Running() && OnlySkips(old(state), state)
      ensures Count(state, Pending) <= Count(old(state), Pending) - if changed then 1 else 0
      ensures !changed ==> NoneBlocked(g, state, |g|)
    {
      changed := false;
      for i := 0 to |g|
        invariant Valid() && Running() && OnlySkips(old(state), state)
        invariant Count(state, Pending) <= Count(old(state), Pending) - if changed then 1 else 0
        invariant !changed ==> NoneBlocked(g, state, i)
      {
        var skipped := SkipIfBlocked(i, old(state));
        changed := changed || skipped;
      }
    }

    /** One target of the pass; start are the states the pass began with. */
    method SkipIfBlocked(t: nat, ghost start: seq<State>) returns (skipped: bool)
      requires Valid() && Running() && t < |g| && OnlySkips(start, state)
      modifies this`state, this`log, this`states
      ensures Valid() && Running() && OnlySkips(start, state)
      ensures Count(state, Pending) == Count(old(state), Pending) - if skipped then 1 else 0
      ensures !skipped && NoneBlocked(g, old(state), t) ==> NoneBlocked(g, state, t + 1)
    {
      if state[t] != Pending { return false; }
      skipped := IsBlocked(t);
      if skipped {
        OnlySkipsStep(start, state, t);
        CountUpdate(state, t, Skipped, Pending);
        SkipTarget(t);
      }
    }

    method IsBlocked(t: nat) returns (b: bool)
      requires Valid() && t < |g|
      ensures b <==> Blocked(g, state, t)
    {
      for j := 0 to |g[t]|
        invariant forall k :: 0 <= k < j ==> state[g[t][k]] != Failed && state[g[t][k]] != Skipped
      {
        var ds := state[g[t][j]];
        if ds == Failed || ds == Skipped { return true; }
      }
      b := false;
    }

    method SkipTarget(t: nat)
      requires Valid() && Running() && t < |g| && state[t] == Pending && Blocked(g, state, t)
      modifies this`state, this`log, this`states
      ensures Valid() && Running() && state == old(state)[t := Skipped]
    {
      SlottedOther(state, slots[..], inFlight, nextPid, t, Skipped);
      FailureMore(log, Skip(t));
      SetState(t, Skipped, Skip(t));
      assert slots[..] == old(slots[..]);
    }

    /** propagate_skipped: to the fixpoint. */
    method PropagateSkipped()
      requires Valid() && Running()
      modifies this`state, this`log, this`states
      ensures Valid() && Running() && OnlySkips(old(state), state)
      ensures NoneBlocked(g, state, |g|) && Work(state) <= Work(old(state))
    {
      var changed := true;
      while changed
        invariant Valid() && Running() && OnlySkips(old(state), state)
        invariant Count(state, Pending) <= Count(old(state), Pending)
        invariant !changed ==> NoneBlocked(g, state, |g|)
        decreases Count(state, Pending), changed
      {
        changed := SkipPass();
      }
      SameRunning(old(state), state);
    }

    /** A ready target built in this process, nothing else running. */
    method BuildHere(t: nat) returns (ok: bool)
      requires Valid() && Running() && inFlight == 0 && t < |g| && IsReady(g, state, t)
      modifies this`state, this`failedNames, this`log, this`states, this`failures, this`answers
      ensures Valid() && InSlots() && state == old(state)[t := if ok then Done else Failed]
      ensures log == old(log) + [Start(t)] + [Finish(t, ok)] && answers == old(answers) + [(t, ok)]
    {
      ghost var st := state;
      Begin(t);
      ok := BuildTarget(t);
      ghost var s := if ok then Done else Failed;
      SlottedOther(st, slots[..], inFlight, nextPid, t, s);
      assert state[t := s] == st[t := s];
      FinishTarget(t, ok);
    }

    /** build_target, with any result. */
    method BuildTarget(t: nat) returns (ok: bool)
      modifies this`answers
      ensures answers == old(answers) + [(t, ok)]
    {
      ok := *;
      answers := answers + [(t, ok)];
    }

    method FinishTarget(t: nat, ok: bool)
      requires Kept() && t < |g| && state[t] == Inflight && !HasStopped(keepGoing, log)
      requires answers == Ends(log) + [(t, ok)]
      modifies this`state, this`failedNames, this`log, this`states, this`failures
      ensures Valid() && state == old(state)[t := if ok then Done else Failed] && log == old(log) + [Finish(t, ok)]
    {
      if ok { SetState(t, Done, Finish(t, ok)); } else { Fail(t, Finish(t, ok)); }
    }

    /** The history notes the start of a target built in this process. */
    method Begin(t: nat)
      requires Valid() && t < |g| && IsReady(g, state, t) && Count(state, Inflight) < jobs
      requires !HasStopped(keepGoing, log)
      modifies this`state, this`log, this`states
      ensures Valid() && !HasStopped(keepGoing, log)
      ensures state == old(state)[t := Inflight] && log == old(log) + [Start(t)]
    {
      FailureMore(log, Start(t));
      SetState(t, Inflight, Start(t));
    }

    /** fork() for a ready target: a slot on success, a failure otherwise. */
    method Launch(t: nat, forked: bool)
      requires Valid() && Running() && inFlight < jobs && t < |g| && IsReady(g, state, t)
      modifies this`state, slots, this`failedNames, this`log, this`states, this`failures, this`inFlight, this`nextPid
      ensures Valid() && Running()
      ensures state == old(state)[t := if forked then Inflight else Failed]
      ensures inFlight == old(inFlight) + if forked then 1 else 0
    {
      if forked { GiveSlot(t); } else { NoFork(t); }
    }

    method NoFork(t: nat)
      requires Valid() && Running() && t < |g| && IsReady(g, state, t)
      modifies this`state, this`failedNames, this`log, this`states, this`failures
      ensures Valid() && Running() && state == old(state)[t := Failed]
    {
      SlottedOther(state, slots[..], inFlight, nextPid, t, Failed);
      FailureMore(log, ForkFailed(t));
      Fail(t, ForkFailed(t));
    }

    method GiveSlot(t: nat)
      requires Valid() && Running() && inFlight < jobs && t < |g| && IsReady(g, state, t)
      modifies this`state, slots, this`log, this`states, this`inFlight, this`nextPid
      ensures Valid() && Running() && state == old(state)[t := Inflight] && inFlight == old(inFlight) + 1
    {
      var j := EmptySlot();
      SlottedStart(state, slots[..], inFlight, nextPid, t, j);
      Begin(t);
      Occupy(j, t);
    }

    method EmptySlot() returns (j: nat)
      requires Valid() && Running() && inFlight < jobs
      ensures j < slots.Length && slots[j].pid == 0
    {
      OccupiedSome(slots[..]);
      j := 0;
      while slots[j].pid != 0
        invariant 0 <= j < slots.Length && forall k :: 0 <= k < j ==> slots[k].pid != 0
        decreases slots.Length - j
      {
        j := j + 1;
      }
    }

    method Occupy(j: nat, t: nat)
      requires j < slots.Length
      modifies slots, this`inFlight, this`nextPid
      ensures slots[..] == old(slots[..])[j := Slot(old(nextPid), t)]
      ensures inFlight == old(inFlight) + 1 && nextPid == old(nextPid) + 1
    {
      ghost var before := slots[..];
      slots[j] := Slot(nextPid, t);
      assert slots[..] == before[j := Slot(nextPid, t)];
      inFlight, nextPid := inFlight + 1, nextPid + 1;
    }

    /** waitpid(-1): some running child, with any status. */
    method WaitAny() returns (done: int, ok: bool)
      requires Kept() && InSlots() && inFlight > 0
      modifies this`answers
      ensures Child(done) && answers == old(answers) + [(TargetOf(done), ok)]
    {
      OccupiedSome(slots[..]);
      assert exists j :: 0 <= j < slots.Length && slots[j].pid != 0;
      var j :| 0 <= j < slots.Length && slots[j].pid != 0;
      done := slots[j].pid;
      ok := *;
      assert Child(done);
      answers := answers + [(TargetOf(done), ok)];
    }

    /** pid is a running child. */
    ghost predicate Child(pid: int)
      reads slots
    {
      pid != 0 && exists j :: 0 <= j < slots.Length && slots[j].pid == pid
    }

    /** The target a running child was forked for. */
    ghost function TargetOf(pid: int): nat
      requires Child(pid)
      reads slots
    {
      var j :| 0 <= j < slots.Length && slots[j].pid == pid;
      slots[j].t
    }

    /** The slot of a reaped child, emptied; its target settles as the child exited. */
    method Reap(done: int, ok: bool) returns (t: nat)
      requires Kept() && Running() && Child(done) && answers == Ends(log) + [(TargetOf(done), ok)]
      modifies this`state, slots, this`failedNames, this`log, this`states, this`failures, this`inFlight
      ensures Valid() && InSlots() && t == old(TargetOf(done)) < |g| && old(state[t]) == Inflight
      ensures state == old(state)[t := if ok then Done else Failed] && log == old(log) + [Finish(t, ok)]
      ensures inFlight == old(inFlight) - 1
    {
      t := Release(done, if ok then Done else Failed);
      FinishTarget(t, ok);
    }

    /** The slot of a reaped child, emptied for a target about to end. */
    method Release(done: int, ghost ended: State) returns (t: nat)
      requires Kept() && InSlots() && Child(done) && ended != Inflight
      modifies slots, this`inFlight
      ensures t == old(TargetOf(done)) < |g| && state[t] == Inflight && inFlight == old(inFlight) - 1
      ensures Slotted(state[t := ended], slots[..], inFlight, nextPid)
    {
      var j := FindSlot(done);
      t := slots[j].t;
      SlottedReap(state, slots[..], inFlight, nextPid, j, ended);
      Vacate(j);
    }

    method Vacate(j: nat)
      requires j < slots.Length && inFlight > 0
      modifies slots, this`inFlight
      ensures slots[..] == old(slots[..])[j := Slot(0, 0)] && inFlight == old(inFlight) - 1
      ensures forall k :: 0 <= k < slots.Length ==> slots[k].pid == old(slots[k].pid) || slots[k].pid == 0
    {
      ghost var before := slots[..];
      slots[j] := Slot(0, 0);
      assert slots[..] == before[j := Slot(0, 0)];
      inFlight := inFlight - 1;
    }

    /** Whether any target is still pending or running. */
    method Remaining() returns (some: bool)
      requires Valid()
      ensures !some <==> Finished(state)
    {
      for i := 0 to |g|
        invariant forall t :: 0 <= t < i ==> state[t] != Pending && state[t] != Inflight
      {
        if state[i] == Pending || state[i] == Inflight { return true; }
      }
      some := false;
    }

    method CountReady() returns (n: nat)
      requires Valid()
      ensures n == ReadyCount(g, state, |g|)
    {
      n := 0;
      for i := 0 to |g|
        invariant n == ReadyCount(g, state, i)
      {
        var ready := TargetIsReady(i);
        if ready { n := n + 1; }
      }
    }

    /** The first ready target. */
    method FirstReady() returns (t: nat)
      requires Valid() && exists t :: 0 <= t < |g| && IsReady(g, state, t)
      ensures t < |g| && IsReady(g, state, t)
    {
      t := 0;
      while true
        invariant 0 <= t < |g| && forall k :: 0 <= k < t ==> !IsReady(g, state, k)
        decreases |g| - t
      {
        var ready := TargetIsReady(t);
        if ready { return; }
        t := t + 1;
      }
    }

    /** Fork ready targets until every job is taken or none is ready: a failed fork never
        makes another target ready. */
    method DispatchReady()
      requires Valid() && Running()
      modifies this`state, slots, this`failedNames, this`log, this`states, this`failures, this`inFlight, this`nextPid
      ensures Valid() && Running() && Work(state) <= Work(old(state)) && inFlight <= jobs
      ensures inFlight < jobs ==> NoneReady(g, state, |g|)
    {
      var i := 0;
      while i < |g| && inFlight < jobs
        invariant 0 <= i <= |g| && Valid() && Running() && Work(state) <= Work(old(state))
        invariant NoneReady(g, state, i)
      {
        DispatchOne(i);
        i := i + 1;
      }
      assert inFlight <= |slots[..]|;
    }

    method DispatchOne(i: nat)
      requires Valid() && Running() && i < |g| && inFlight < jobs && NoneReady(g, state, i)
      modifies this`state, slots, this`failedNames, this`log, this`states, this`failures, this`inFlight, this`nextPid
      ensures Valid() && Running() && Work(state) <= Work(old(state)) && NoneReady(g, state, i + 1)
    {
      var ready := TargetIsReady(i);
      if ready {
        var forked: bool := *;
        ghost var s := if forked then Inflight else Failed;
        WorkUpdate(state, i, s);
        StaysUnready(g, state, i, s);
        Launch(i, forked);
      }
    }

    /** Nothing runs, and nothing is ready or dispatch has stopped: the rest is not built. */
    method SkipRest(stopped: bool)
      requires Valid() && if stopped then Over() else Running() && inFlight == 0 && NoneReady(g, state, |g|)
      modifies this`state, this`log, this`states
      ensures Valid() && HasStopped(keepGoing, log) == stopped && (!stopped ==> Finished(state))
      ensures forall t :: 0 <= t < |g| ==> state[t] == if old(state)[t] == Pending then Skipped else old(state)[t]
    {
      CountZero(state, Inflight);
      for i := 0 to |g|
        invariant Valid() && stopped == HasStopped(keepGoing, log)
        invariant forall t :: 0 <= t < |g| ==>
            state[t] == if t < i && old(state)[t] == Pending then Skipped else old(state)[t]
      {
        if state[i] == Pending {
          if !stopped { RestBlocked(g, old(state), state, i); }
          SkipLast(i, stopped);
        }
      }
    }

    method SkipLast(t: nat, stopped: bool)
      requires Valid() && stopped == HasStopped(keepGoing, log) && t < |g| && state[t] == Pending
      requires !stopped ==> Blocked(g, state, t)
      modifies this`state, this`log, this`states
      ensures Valid() && stopped == HasStopped(keepGoing, log) && state == old(state)[t := Skipped]
    {
      ghost var e := if stopped then Abandon(t) else Skip(t);
      if stopped { FailureShows(g, jobs, keepGoing, states, log); }
      FailureMore(log, e);
      SetState(t, Skipped, e);
    }

    /** Wait for every child still running; their targets are left as they were. */
    method Drain()
      requires Valid() && InSlots()
      modifies slots, this`inFlight
      ensures Valid() && inFlight == 0 && forall j :: 0 <= j < slots.Length ==> slots[j].pid == 0
    {
      while inFlight > 0
        invariant inFlight == Occupied(slots[..])
      {
        OccupiedSome(slots[..]);
        var k :| 0 <= k < slots.Length && slots[k].pid != 0;
        var j := FindSlot(slots[k].pid);
        OccupiedUpdate(slots[..], j, Slot(0, 0));
        Vacate(j);
      }
      OccupiedSome(slots[..]);
    }

    /** A lone ready target with nothing running is built in this process. */
    method RunLone() returns (ok: bool, stopped: bool)
      requires Valid() && Running() && inFlight == 0 && exists t :: 0 <= t < |g| && IsReady(g, state, t)
      modifies this`state, this`failedNames, this`log, this`states, this`failures, this`answers
      ensures Valid() && Work(state) < Work(old(state)) && if stopped then Over() else Running()
      ensures (stopped <==> !ok && !keepGoing) && (!ok && keepGoing ==> NoneBlocked(g, state, |g|))
    {
      var t := FirstReady();
      ok := BuildHere(t);
      WorkUpdate(old(state), t, if ok then Done else Failed);
      FailureMore(old(log), Start(t));
      FailureMore(old(log) + [Start(t)], Finish(t, ok));
      stopped := !ok && !keepGoing;
      if !ok && keepGoing { PropagateSkipped(); }
    }

    /** Wait for one child and settle its target. */
    method ReapOne() returns (ok: bool, stopped: bool)
      requires Valid() && Running() && inFlight > 0
      modifies this`state, slots, this`failedNames, this`log, this`states, this`failures, this`inFlight, this`answers
      ensures Valid() && Work(state) < Work(old(state)) && if stopped then Over() else Running()
      ensures (stopped <==> !ok && !keepGoing) && (!ok && keepGoing ==> NoneBlocked(g, state, |g|))
    {
      var done: int;
      done, ok := WaitAny();
      var t := Reap(done, ok);
      WorkUpdate(old(state), t, if ok then Done else Failed);
      FailureMore(old(log), Finish(t, ok));
      stopped := AfterReap(ok);
    }

    /** A failed child ends dispatch, or what depends on its target is skipped. */
    method AfterReap(ok: bool) returns (stopped: bool)
      requires Valid() && InSlots() && (HasStopped(keepGoing, log) <==> !ok && !keepGoing)
      modifies this`state, slots, this`log, this`states, this`inFlight
      ensures Valid() && Work(state) <= Work(old(state)) && if stopped then Over() else Running()
      ensures (stopped <==> !ok && !keepGoing) && (!ok && keepGoing ==> NoneBlocked(g, state, |g|))
    {
      stopped := !ok && !keepGoing;
      if stopped {
        Drain();
      } else if !ok {
        PropagateSkipped();
      }
    }

    /** One turn of the dispatch loop: a lone target built here, or ready targets forked
        and one child reaped; over when nothing runs and nothing can start. */
    method Turn(stopped: bool) returns (stopped': bool, over: bool)
      requires Valid() && if stopped then Over() else Running()
      modifies this, slots
      ensures Valid()
      ensures over ==> (forall t :: 0 <= t < |g| ==> state[t] != Pending)
      ensures over && !HasStopped(keepGoing, log) ==> Finished(state)
      ensures !over ==> Work(state) < Work(old(state)) && if stopped' then Over() else Running()
    {
      stopped', over := stopped, false;
      if !stopped {
        var ready := CountReady();
        ReadyNone(g, state, |g|);
        if ready == 1 && inFlight == 0 {
          var built: bool;
          built, stopped' := RunLone();
          return;
        }
        DispatchReady();
      }
      if inFlight == 0 {
        SkipRest(stopped);
        over := true;
      } else {
        var exited: bool;
        exited, stopped' := ReapOne();
      }
    }

    /** The dispatch loop terminates. Its whole history is legal, so every start found its
        dependencies done and a job free, and targets ended as their builds and children
        said. A build that did not stop leaves every target done, failed or skipped, and
        skipped exactly when a transitive dependency failed; with keep-going no build stops.
        One that stopped stands as it did at its first failure, less what was pending. */
    method Run()
      requires Valid() && Running()
      modifies this, slots
      ensures Valid() && failures == Count(state, Failed) <= |g|
      ensures Sound(g, jobs, HasStopped(keepGoing, log), state)
      ensures forall t :: 0 <= t < |g| ==> state[t] != Pending
      ensures !HasStopped(keepGoing, log) ==> Finished(state) && SkipsMatchFailures(g, state)
      ensures HasStopped(keepGoing, log) ==> exists j :: EndsAt(states, log, state, j)
      ensures failures == 0 ==> forall t :: 0 <= t < |g| ==> state[t] == Done
    {
      var stopped := false;
      while true
        invariant Valid() && if stopped then Over() else Running()
        decreases Work(state)
      {
        var some := Remaining();
        if !some { break; }
        var over: bool;
        stopped, over := Turn(stopped);
        if over { break; }
      }
      LegalEnds(g, jobs, keepGoing, states, log, state);
      if HasStopped(keepGoing, log) { StoppedEnds(g, jobs, states, log, state); }
    }

    method FindSlot(pid: int) returns (j: nat)
      requires exists j :: 0 <= j < slots.Length && slots[j].pid == pid
      ensures j < slots.Length && slots[j].pid == pid
    {
      j := 0;
      while slots[j].pid != pid
        invariant 0 <= j < slots.Length
        invariant forall k :: 0 <= k < j ==> slots[k].pid != pid
        decreases slots.Length - j
      {
        j := j + 1;
      }
    }
  }

  function ReadyCount(g: Graph, st: seq<State>, n: nat): nat
    requires |st| == |g| && Ordered(g) && n <= |g|
  {
    if n == 0 then 0 else ReadyCount(g, st, n - 1) + if Ready(g, st, n - 1) then 1 else 0
  }

  predicate Ready(g: Graph, st: seq<State>, t: nat)
    requires |st| == |g| && Ordered(g) && t < |g|
    ensures Ready(g, st, t) <==> IsReady(g, st, t)
  {
    st[t] == Pending && forall i :: 0 <= i < |g[t]| ==> st[g[t][i]] == Done
  }

  lemma {:induction false} ReadyNone(g: Graph, st: seq<State>, n: nat)
    requires |st| == |g| && Ordered(g) && n <= |g|
    ensures ReadyCount(g, st, n) == 0 <==> forall t :: 0 <= t < n ==> !IsReady(g, st, t)
  {
    if n > 0 { ReadyNone(g, st, n - 1); }
  }

  /** t is ready, and no other of the first n. */
  ghost predicate OnlyReady(g: Graph, st: seq<State>, n: nat, t: nat)
    requires |st| == |g| && Ordered(g) && n <= |g|
  {
    t < n && IsReady(g, st, t) && forall k :: 0 <= k < n && IsReady(g, st, k) ==> k == t
  }

  /** The count is 1 exactly when one target is ready and no other. */
  lemma {:induction false} ReadyOne(g: Graph, st: seq<State>, n: nat)
    requires |st| == |g| && Ordered(g) && n <= |g|
    ensures ReadyCount(g, st, n) == 1 <==> exists t: nat :: OnlyReady(g, st, n, t)
  {
    if n > 0 {
      var p := n - 1;
      ReadyOne(g, st, p);
      ReadyNone(g, st, p);
      if IsReady(g, st, p) {
        assert ReadyCount(g, st, p) == 0 ==> OnlyReady(g, st, n, p);
      } else {
        if t: nat :| OnlyReady(g, st, p, t) { assert OnlyReady(g, st, n, t); }
        if t: nat :| OnlyReady(g, st, n, t) { assert OnlyReady(g, st, p, t); }
      }
    }
  }

  /** No pending target among the first n has a failed or skipped dependency. */
  ghost predicate NoneBlocked(g: Graph, st: seq<State>, n: int)
    requires |st| == |g| && Ordered(g)
  {
    forall t :: 0 <= t < n && t < |g| && st[t] == Pending ==> !Blocked(g, st, t)
  }

  /** None of the first n targets is ready. */
  ghost predicate NoneReady(g: Graph, st: seq<State>, n: int)
    requires |st| == |g| && Ordered(g)
  {
    forall t :: 0 <= t < n && t < |g| ==> !IsReady(g, st, t)
  }

  lemma StaysUnready(g: Graph, st: seq<State>, i: nat, s: State)
    requires |st| == |g| && Ordered(g) && i < |g| && st[i] == Pending && s != Done && s != Pending
    ensures NoneReady(g, st, i) ==> NoneReady(g, st[i := s], i + 1)
  {
    var st' := st[i := s];
    if NoneReady(g, st, i) {
      forall t | 0 <= t <= i ensures !IsReady(g, st', t) { NotMadeReady(g, st, i, s, t); }
    }
  }

  lemma NotMadeReady(g: Graph, st: seq<State>, i: nat, s: State, t: nat)
    requires |st| == |g| && Ordered(g) && i < |g| && st[i] == Pending && s != Done && s != Pending && t < |g|
    ensures IsReady(g, st[i := s], t) ==> t != i && IsReady(g, st, t)
  {
    if IsReady(g, st[i := s], t) {
      forall k | 0 <= k < |g[t]| ensures st[g[t][k]] == Done { assert st[i := s][g[t][k]] == Done; }
    }
  }

  /** In order, the first pending target that is not ready sits on a failure. */
  lemma RestBlocked(g: Graph, st: seq<State>, cur: seq<State>, i: nat)
    requires |st| == |cur| == |g| && Ordered(g) && i < |g| && st[i] == Pending && !IsReady(g, st, i)
    requires forall t :: 0 <= t < |g| ==> st[t] != Inflight
    requires forall t :: 0 <= t < |g| ==> cur[t] == if t < i && st[t] == Pending then Skipped else st[t]
    ensures Blocked(g, cur, i)
  {
    var k :| 0 <= k < |g[i]| && st[g[i][k]] != Done;
    assert cur[g[i][k]] == Failed || cur[g[i][k]] == Skipped;
  }

  lemma {:induction false} SameRunning(st: seq<State>, st': seq<State>)
    requires OnlySkips(st, st')
    ensures Count(st', Inflight) == Count(st, Inflight)
  {
    if st != [] {
      var n := |st| - 1;
      assert forall t :: 0 <= t < n ==> st'[..n][t] == st'[t] && st[..n][t] == st[t];
      SameRunning(st[..n], st'[..n]);
    }
  }

  lemma OnlySkipsStep(st0: seq<State>, st: seq<State>, t: nat)
    requires OnlySkips(st0, st) && t < |st| && st[t] == Pending
    ensures OnlySkips(st0, st[t := Skipped])
  {
  }

  /** Only pending targets changed, and only to skipped. */
  ghost predicate OnlySkips(st: seq<State>, st': seq<State>) {
    |st'| == |st| && forall t :: 0 <= t < |st| && st'[t] != st[t] ==> st[t] == Pending && st'[t] == Skipped
  }
}
