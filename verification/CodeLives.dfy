/** How long code and data live (src/codegen_func.c:1339-1434), over whole runs and in
    terms of the steps taken: what a release gives back and what it must leave, and that
    nothing in use is ever overwritten or moved. */
module CodeLives {
  import opened Holes
  import opened Ownership
  import opened CodeRuns
  import T = TextSpace
  import D = DataSpace

  // ---------- words in use stay as they are ----------

  /** Compile k has not given its words back. */
  ghost predicate InUse(s: System, k: nat) {
    k < |s.marks| && !s.marks[k].text.textDone
  }

  /** The words of compile k and the bounds its mark gives them are the same. */
  ghost predicate SameCode(s: System, s': System, k: nat) {
    && k < |s.marks| && k < |s'.marks|
    && var m, m' := s.marks[k].text, s'.marks[k].text;
       && m'.textStart == m.textStart && m'.textEnd == m.textEnd
       && forall w :: m.textStart < w <= m.textEnd ==> SameWord(s.text, s'.text, w)
  }

  ghost predicate SameWord(t: T.Text, t': T.Text, w: int) {
    0 <= w < |t.words| && w < |t'.words| && t'.words[w] == t.words[w]
  }

  ghost predicate OwnsWord(s: System, k: nat, w: int) {
    0 <= w < |s.textOwn| && w < |s.text.words| && s.textOwn[w] == Of(k)
  }

  /** Giving back the words of compile k changes no word another compile keeps. */
  lemma GiveBackSpares(t: T.Text, own: seq<Owner>, regs: seq<Hole>, k: nat, m: T.Mark, w: int)
    requires T.TextInv(t, own, regs) && k < |regs| && T.Agrees(m, regs[k]) && !m.textDone && !T.MustStay(m)
    requires var own' := T.ReleasedOwn(own, t, m);
      0 <= w < |own| && w < |own'| && own'[w] == own[w] && own[w].Of?
    ensures SameWord(t, T.GiveBack(t, m), w)
  {
    T.GiveBackKeeps(t, own, regs, k, m);
    RegionCells(own, regs, k);
    if m.textStart < m.textEnd && !m.inHole && t.top == m.textEnd {
      T.ReleaseTop(t, own, regs, k, m);
    }
  }

  lemma InRegion(s: System, k: nat)
    requires Inv(s) && InUse(s, k)
    ensures var m := s.marks[k].text;
      && s.textRegs[k] == Hole(m.textStart + 1, m.textEnd + 1)
      && forall w :: m.textStart < w <= m.textEnd ==> OwnsWord(s, k, w)
  {
    assert T.Agrees(s.marks[k].text, s.textRegs[k]);
    RegionCells(s.textOwn, s.textRegs, k);
    forall w | s.marks[k].text.textStart < w <= s.marks[k].text.textEnd
      ensures OwnsWord(s, k, w)
    {
      assert In(s.textRegs[k], w);
    }
  }

  lemma Untouched(s: System, s': System, k: nat)
    requires Inv(s) && InUse(s, k) && s'.text.words == s.text.words
    requires k < |s'.marks| && s'.marks[k].text == s.marks[k].text.(confined := s'.marks[k].text.confined)
    ensures SameCode(s, s', k)
  {
    InRegion(s, k);
    forall w | s.marks[k].text.textStart < w <= s.marks[k].text.textEnd ensures SameWord(s.text, s'.text, w) {
      assert OwnsWord(s, k, w);
    }
  }

  lemma ReleaseSpares(s: System, j: nat, k: nat)
    requires Inv(s) && j < |s.marks| && InUse(ReleaseStep(s, j).0, k)
    ensures InUse(s, k) && SameCode(s, ReleaseStep(s, j).0, k)
  {
    var s' := ReleaseStep(s, j).0;
    ReleaseKeeps(s, j);
    var m := s.marks[j].text;
    if s.condDepth == 0 && !m.textDone && !T.MustStay(m) {
      InRegion(s, k);
      InRegion(s', k);
      forall w | s.marks[k].text.textStart < w <= s.marks[k].text.textEnd ensures SameWord(s.text, s'.text, w) {
        assert OwnsWord(s, k, w) && OwnsWord(s', k, w);
        GiveBackSpares(s.text, s.textOwn, s.textRegs, j, m, w);
      }
    } else {
      Untouched(s, s', k);
    }
  }

  /** One turn of the retry loop. */
  function Retried(s: System, i: nat): System
    requires |s.marks| == |s.textRegs| == |s.dataRegs| && i < |s.dead| && s.dead[i] < |s.marks|
  {
    var (s1, rc) := ReleaseStep(s, s.dead[i]);
    if rc == 0 then s1 else s1.(dead := s1.dead[..i] + s1.dead[i + 1..])
  }

  lemma RetryTurns(s: System, i: nat)
    requires Inv(s) && i < |s.dead|
    ensures Inv(Retried(s, i)) && Retry(s, i) == Retry(Retried(s, i), if s.condDepth > 0 then i + 1 else i)
    ensures |Retried(s, i).marks| == |s.marks| && Retried(s, i).condDepth == s.condDepth
    ensures |Retried(s, i).dead| == |s.dead| - if s.condDepth > 0 then 0 else 1
  {
    ReleaseKeeps(s, s.dead[i]);
  }

  lemma SameThen(s: System, s1: System, s2: System, k: nat)
    requires SameCode(s, s1, k) && SameCode(s1, s2, k)
    ensures SameCode(s, s2, k)
  {
    forall w | s.marks[k].text.textStart < w <= s.marks[k].text.textEnd ensures SameWord(s.text, s2.text, w) {
      assert SameWord(s.text, s1.text, w) && SameWord(s1.text, s2.text, w);
    }
  }

  lemma {:induction false} RetrySpares(s: System, i: nat, k: nat)
    requires Inv(s) && InUse(Retry(s, i), k)
    ensures InUse(s, k) && SameCode(s, Retry(s, i), k)
    decreases |s.dead| - i
  {
    if i < |s.dead| {
      RetryTurns(s, i);
      RetrySpares(Retried(s, i), if s.condDepth > 0 then i + 1 else i, k);
      ReleaseSpares(s, s.dead[i], k);
      SameThen(s, ReleaseStep(s, s.dead[i]).0, Retry(s, i), k);
    } else {
      Untouched(s, s, k);
    }
  }

  /** A compile changes no word that was in use. */
  lemma EndSpares(s: System, u: Unit, k: nat)
    requires Inv(s) && CanCompile(s, u, Ended) && InUse(s, k)
    ensures SameCode(s, CompileEnds(s, u), k)
  {
    var s' := CompileEnds(s, u);
    GeneratedEmits(s, u, Ended);
    InRegion(s, k);
    if InHole(u) { ListedCells(s.text.holes, s.textOwn, u.textHole); }
    forall w | s.marks[k].text.textStart < w <= s.marks[k].text.textEnd ensures SameWord(s.text, s'.text, w) {
      assert OwnsWord(s, k, w);
      assert InHole(u) ==> !In(u.textHole, w);
    }
  }

  lemma ThrowSparesAtTop(s: System, u: Unit, late: bool, k: nat)
    requires Inv(s) && CanCompile(s, u, Threw) && InUse(s, k) && !InHole(u)
    ensures SameCode(s, CompileThrows(s, u, late), k)
  {
    var s' := CompileThrows(s, u, late);
    GeneratedEmits(s, u, Threw);
    TextThrowAtTop(s, u, late);
    InRegion(s, k);
    var g, m := Generated(s, u), T.Begin(s.text, u.textHole.start, u.textHole.end, u.newFns).1;
    T.ThrowAtTop(s.text, s.textOwn, s.textRegs, g, m);
    assert s'.text == T.GiveBack(g, m);
    forall w | s.marks[k].text.textStart < w <= s.marks[k].text.textEnd ensures SameWord(s.text, s'.text, w) {
      assert OwnsWord(s, k, w);
    }
  }

  lemma ThrowSparesInHole(s: System, u: Unit, late: bool, k: nat)
    requires Inv(s) && CanCompile(s, u, Threw) && InUse(s, k) && InHole(u)
    ensures SameCode(s, CompileThrows(s, u, late), k)
  {
    var s' := CompileThrows(s, u, late);
    GeneratedEmits(s, u, Threw);
    InRegion(s, k);
    ListedCells(s.text.holes, s.textOwn, u.textHole);
    forall w | s.marks[k].text.textStart < w <= s.marks[k].text.textEnd ensures SameWord(s.text, s'.text, w) {
      assert OwnsWord(s, k, w);
      assert !In(u.textHole, w);
    }
  }

  lemma StepSpares(s: System, st: Step, k: nat)
    requires Inv(s) && Enabled(s, st) && k < |s.marks| && InUse(Next(s, st), k)
    ensures InUse(s, k) && SameCode(s, Next(s, st), k)
  {
    match st
    case Compile(u, Ended) => EndSpares(s, u, k);
    case Compile(u, Threw) =>
      if InHole(u) { ThrowSparesInHole(s, u, false, k); } else { ThrowSparesAtTop(s, u, false, k); }
    case Compile(u, ThrewLate) =>
      if InHole(u) { ThrowSparesInHole(s, u, true, k); } else { ThrowSparesAtTop(s, u, true, k); }
    case Confine(j) => Untouched(s, Next(s, st), k);
    case Release(j) => ReleaseSpares(s, j, k);
    case Discard(j) => ReleaseSpares(s, j, k);
    case RetryDead => RetrySpares(s, 0, k);
    case EnterCond => Untouched(s, Next(s, st), k);
    case LeaveCond => Untouched(s, Next(s, st), k);
  }

  lemma MarksGrow(s: System, st: Step)
    requires Inv(s) && Enabled(s, st)
    ensures |Next(s, st).marks| == |s.marks| + if st.Compile? then 1 else 0
  {
    match st
    case RetryDead => RetryMarks(s, 0);
    case Release(k) => ReleaseKeeps(s, k);
    case Discard(k) => ReleaseKeeps(s, k);
    case Compile(_, _) =>
    case Confine(_) =>
    case EnterCond =>
    case LeaveCond =>
  }

  lemma {:induction false} RetryMarks(s: System, i: nat)
    requires Inv(s)
    ensures |Retry(s, i).marks| == |s.marks|
    decreases |s.dead| - i
  {
    if i < |s.dead| {
      RetryTurns(s, i);
      RetryMarks(Retried(s, i), if s.condDepth > 0 then i + 1 else i);
    }
  }

  lemma LastStep(states: seq<System>, steps: seq<Step>, j: nat)
    requires IsRun(states, steps) && Initial(states[0]) && 0 < j < |states|
    ensures Inv(states[j - 1]) && Enabled(states[j - 1], steps[j - 1])
    ensures Inv(states[j]) && states[j] == Next(states[j - 1], steps[j - 1])
  {
    RunKeeps(states, steps, j - 1);
    RunKeeps(states, steps, j);
    assert states[j - 1 + 1] == Next(states[j - 1], steps[j - 1]);
  }

  /** As long as compile k has not given them back, its words stay where and what they
      are, whatever is compiled, thrown, released or retried meanwhile. */
  lemma {:induction false} CodeStays(states: seq<System>, steps: seq<Step>, i: nat, j: nat, k: nat)
    requires IsRun(states, steps) && Initial(states[0]) && i <= j < |states|
    requires k < |states[i].marks| && InUse(states[j], k)
    ensures InUse(states[i], k) && SameCode(states[i], states[j], k)
    decreases j - i
  {
    RunKeeps(states, steps, i);
    if i == j {
      Untouched(states[i], states[i], k);
    } else {
      LastStep(states, steps, j);
      MarksOnlyGrow(states, steps, i, j - 1);
      StepSpares(states[j - 1], steps[j - 1], k);
      CodeStays(states, steps, i, j - 1, k);
      SameThen(states[i], states[j - 1], states[j], k);
    }
  }

  lemma {:induction false} MarksOnlyGrow(states: seq<System>, steps: seq<Step>, i: nat, j: nat)
    requires IsRun(states, steps) && Initial(states[0]) && i <= j < |states|
    ensures |states[i].marks| <= |states[j].marks|
    decreases j - i
  {
    if i < j {
      LastStep(states, steps, j);
      MarksGrow(states[j - 1], steps[j - 1]);
      MarksOnlyGrow(states, steps, i, j - 1);
    }
  }

  // ---------- what a mark remembers ----------

  /** m' is m, perhaps released since, confined when asked. */
  ghost predicate SameMark(m: T.Mark, m': T.Mark, confined: bool) {
    m' == m.(textDone := m'.textDone, confined := m.confined || confined)
  }

  lemma {:induction false} RetryMark(s: System, i: nat, k: nat)
    requires Inv(s) && k < |s.marks|
    ensures k < |Retry(s, i).marks| && SameMark(s.marks[k].text, Retry(s, i).marks[k].text, false)
    decreases |s.dead| - i
  {
    if i < |s.dead| {
      RetryTurns(s, i);
      RetryMark(Retried(s, i), if s.condDepth > 0 then i + 1 else i, k);
    }
  }

  lemma StepMark(s: System, st: Step, k: nat)
    requires Inv(s) && Enabled(s, st) && k < |s.marks|
    ensures k < |Next(s, st).marks| && SameMark(s.marks[k].text, Next(s, st).marks[k].text, st == Confine(k))
  {
    match st
    case RetryDead => RetryMark(s, 0, k);
    case Release(j) =>
    case Discard(j) =>
    case Compile(_, _) =>
    case Confine(j) =>
    case EnterCond =>
    case LeaveCond =>
  }

  /** Step i compiled u to its end, as compile number k. */
  ghost predicate CompiledAt(states: seq<System>, steps: seq<Step>, i: nat, u: Unit, k: nat) {
    i < |steps| && i < |states| && steps[i] == Compile(u, Ended) && k == |states[i].marks|
  }

  /** Compile k was confined by a step between i and j. */
  ghost predicate ConfinedIn(steps: seq<Step>, i: nat, j: nat, k: nat) {
    exists c :: i < c < j && c < |steps| && steps[c] == Confine(k)
  }

  /** More than one function, or a label: others may have learnt an address of it. */
  predicate Reachable(u: Unit) {
    u.newFns > 1 || u.labelsGrew
  }

  /** A mark holds what its compile was asked for, and is confined if a step since said so. */
  lemma {:induction false} MarkOf(states: seq<System>, steps: seq<Step>, i: nat, j: nat, u: Unit, k: nat)
    requires IsRun(states, steps) && Initial(states[0]) && CompiledAt(states, steps, i, u, k) && i < j < |states|
    ensures k < |states[j].marks|
    ensures var m := states[j].marks[k].text;
      && m.ended && m.newFns == u.newFns && m.labelsGrew == u.labelsGrew && m.inHole == CodeRuns.InHole(u)
      && (m.confined <==> ConfinedIn(steps, i, j, k))
    decreases j
  {
    LastStep(states, steps, j);
    if i < j - 1 {
      MarkOf(states, steps, i, j - 1, u, k);
      StepMark(states[j - 1], steps[j - 1], k);
      ConfinedMore(steps, i, j - 1, k);
    }
  }

  lemma ConfinedMore(steps: seq<Step>, i: nat, j: nat, k: nat)
    requires i < j < |steps|
    ensures ConfinedIn(steps, i, j + 1, k) <==> ConfinedIn(steps, i, j, k) || steps[j] == Confine(k)
  {
    if ConfinedIn(steps, i, j, k) {
      var c :| i < c < j && c < |steps| && steps[c] == Confine(k);
      assert i < c < j + 1;
    }
    if steps[j] == Confine(k) { assert i < j < j + 1; }
  }

  // ---------- what a release gives back ----------

  /** How many of the first n steps are st. */
  ghost function Times(steps: seq<Step>, n: nat, st: Step): nat
    requires n <= |steps|
  {
    if n == 0 then 0 else Times(steps, n - 1, st) + if steps[n - 1] == st then 1 else 0
  }

  lemma StepDepth(s: System, st: Step)
    requires Inv(s) && Enabled(s, st)
    ensures Next(s, st).condDepth ==
            s.condDepth + (if st == EnterCond then 1 else 0) - (if st == LeaveCond then 1 else 0)
  {
    match st
    case RetryDead => RetryDepth(s, 0);
    case Release(k) => ReleaseKeeps(s, k);
    case Discard(k) => ReleaseKeeps(s, k);
    case Compile(_, _) =>
    case Confine(_) =>
    case EnterCond =>
    case LeaveCond =>
  }

  lemma {:induction false} RetryDepth(s: System, i: nat)
    requires Inv(s)
    ensures Retry(s, i).condDepth == s.condDepth
    decreases |s.dead| - i
  {
    if i < |s.dead| {
      RetryTurns(s, i);
      RetryDepth(Retried(s, i), if s.condDepth > 0 then i + 1 else i);
    }
  }

  /** cond_depth counts the wrappers running: those entered and not yet left. */
  lemma {:induction false} DepthCounts(states: seq<System>, steps: seq<Step>, j: nat)
    requires IsRun(states, steps) && Initial(states[0]) && j < |states|
    ensures states[j].condDepth == states[0].condDepth + Times(steps, j, EnterCond) - Times(steps, j, LeaveCond)
    decreases j
  {
    if j > 0 {
      LastStep(states, steps, j);
      DepthCounts(states, steps, j - 1);
      StepDepth(states[j - 1], steps[j - 1]);
    }
  }

  /** What cc_code_release answers: 0 while a wrapper runs; 1 when the words are back;
      -1, leaving them, for a unit others may reach that nobody confined. */
  lemma ReleaseExactly(states: seq<System>, steps: seq<Step>, i: nat, j: nat, u: Unit, k: nat)
    requires IsRun(states, steps) && Initial(states[0]) && CompiledAt(states, steps, i, u, k) && i < j < |states|
    ensures Inv(states[j]) && k < |states[j].marks|
    ensures var (s', rc) := ReleaseStep(states[j], k);
      var stays := Reachable(u) && !ConfinedIn(steps, i, j, k);
      && rc == (if states[j].condDepth > 0 then 0 else if stays && InUse(states[j], k) then -1 else 1)
      && (InUse(s', k) <==> rc != 1 && InUse(states[j], k))
  {
    LastStep(states, steps, j);
    MarkOf(states, steps, i, j, u, k);
  }

  /** The words that went back are free, or above the top. */
  lemma GoneIsFree(s: System, k: nat, w: int)
    requires Inv(s) && InUse(s, k) && !InUse(ReleaseStep(s, k).0, k)
    requires s.marks[k].text.textStart < w <= s.marks[k].text.textEnd
    ensures var s' := ReleaseStep(s, k).0; w > s'.text.top || Free(s'.text.holes, w)
  {
    ReleaseKeeps(s, k);
    InRegion(s, k);
    assert OwnsWord(s, k, w);
    var s', m := ReleaseStep(s, k).0, s.marks[k].text;
    if m.inHole || s.text.top != m.textEnd {
      T.ReleaseBelow(s.text, s.textOwn, s.textRegs, k, m);
    } else {
      T.ReleaseTop(s.text, s.textOwn, s.textRegs, k, m);
    }
  }

  lemma {:induction false} RetryLeaves(s: System, i: nat, k: nat)
    requires Inv(s) && InUse(s, k)
    requires var m := s.marks[k].text; m.ended && !m.confined && (m.newFns > 1 || m.labelsGrew)
    ensures InUse(Retry(s, i), k)
    decreases |s.dead| - i
  {
    if i < |s.dead| {
      RetryTurns(s, i);
      RetryLeaves(Retried(s, i), if s.condDepth > 0 then i + 1 else i, k);
    }
  }

  lemma StepLeaves(s: System, st: Step, k: nat)
    requires Inv(s) && Enabled(s, st) && InUse(s, k)
    requires var m := s.marks[k].text; m.ended && !m.confined && (m.newFns > 1 || m.labelsGrew)
    ensures InUse(Next(s, st), k)
  {
    match st
    case RetryDead => RetryLeaves(s, 0, k);
    case Release(j) =>
    case Discard(j) =>
    case Compile(_, _) =>
    case Confine(j) =>
    case EnterCond =>
    case LeaveCond =>
  }

  /** Code others may reach is never taken away and never changes, unless it was confined:
      no release, discard or retry gives it back. */
  lemma ReachableStays(states: seq<System>, steps: seq<Step>, i: nat, j: nat, u: Unit, k: nat)
    requires IsRun(states, steps) && Initial(states[0]) && CompiledAt(states, steps, i, u, k) && i < j < |states|
    requires Reachable(u) && !ConfinedIn(steps, i, j, k)
    ensures InUse(states[j], k) && SameCode(states[i + 1], states[j], k)
  {
    StaysInUse(states, steps, i, j, u, k);
    MarkOf(states, steps, i, i + 1, u, k);
    CodeStays(states, steps, i + 1, j, k);
  }

  lemma {:induction false} StaysInUse(states: seq<System>, steps: seq<Step>, i: nat, j: nat, u: Unit, k: nat)
    requires IsRun(states, steps) && Initial(states[0]) && CompiledAt(states, steps, i, u, k) && i < j < |states|
    requires Reachable(u) && !ConfinedIn(steps, i, j, k)
    ensures InUse(states[j], k)
    decreases j
  {
    LastStep(states, steps, j);
    if i < j - 1 {
      ConfinedMore(steps, i, j - 1, k);
      StaysInUse(states, steps, i, j - 1, u, k);
      MarkOf(states, steps, i, j - 1, u, k);
      StepLeaves(states[j - 1], steps[j - 1], k);
    }
  }

  // ---------- discarded marks ----------

  /** A discard is a release, or while a wrapper runs a place on the dead list. */
  lemma DiscardExactly(s: System, k: nat)
    requires Inv(s) && Enabled(s, Discard(k))
    ensures Next(s, Discard(k)) == if s.condDepth > 0 then s.(dead := s.dead + [k]) else ReleaseStep(s, k).0
  {
    ReleaseKeeps(s, k);
  }

  /** Nothing keeps the words of mark k from going back. */
  ghost predicate MayGo(s: System, k: nat) {
    && k < |s.marks|
    && var m := s.marks[k].text; m.ended ==> m.confined || !(m.newFns > 1 || m.labelsGrew)
  }

  lemma TurnReleases(s: System, i: nat)
    requires Inv(s) && s.condDepth == 0 && i < |s.dead| && MayGo(s, s.dead[i])
    ensures TextDone(Retried(s, i), s.dead[i])
  {
  }

  lemma TurnKeeps(s: System, i: nat, k: nat)
    requires Inv(s) && s.condDepth == 0 && i < |s.dead| && MayGo(s, k) && k in s.dead[i..] && s.dead[i] != k
    ensures MayGo(Retried(s, i), k) && i <= |Retried(s, i).dead| && k in Retried(s, i).dead[i..]
  {
    ReleaseKeeps(s, s.dead[i]);
    assert s.dead[i..] == [s.dead[i]] + s.dead[i + 1..];
    assert Retried(s, i).dead[i..] == s.dead[i + 1..];
  }

  lemma {:induction false} RetryReleases(s: System, i: nat, k: nat)
    requires Inv(s) && s.condDepth == 0 && MayGo(s, k) && i <= |s.dead| && k in s.dead[i..]
    ensures TextDone(Retry(s, i), k)
    decreases |s.dead| - i
  {
    RetryTurns(s, i);
    if s.dead[i] == k {
      TurnReleases(s, i);
      RetryKeepsDone(Retried(s, i), i, k);
    } else {
      TurnKeeps(s, i, k);
      RetryReleases(Retried(s, i), i, k);
    }
  }

  /** A mark waits on the dead list until the first retry with nothing running; its words
      then go back, unless they are of a unit others may reach that nobody confined. */
  lemma {:induction false} DiscardedWaits(states: seq<System>, steps: seq<Step>, i: nat, j: nat, k: nat)
    requires IsRun(states, steps) && Initial(states[0]) && i < j < |states| && steps[i] == Discard(k)
    requires forall c :: i < c < j && steps[c] == RetryDead ==> states[c].condDepth > 0
    ensures k < |states[j].marks| && (states[i].condDepth > 0 ==> k in states[j].dead)
    decreases j
  {
    LastStep(states, steps, j);
    var s, st := states[j - 1], steps[j - 1];
    if i == j - 1 {
      DiscardExactly(s, k);
      ReleaseKeeps(s, k);
    } else {
      DiscardedWaits(states, steps, i, j - 1, k);
      StepKeepsDead(s, st, k);
    }
  }

  lemma StepKeepsDead(s: System, st: Step, k: nat)
    requires Inv(s) && Enabled(s, st) && k < |s.marks| && (st == RetryDead ==> s.condDepth > 0)
    ensures k < |Next(s, st).marks| && (k in s.dead ==> k in Next(s, st).dead)
  {
    match st
    case RetryDead => RetryKeeps(s, 0);
    case Release(j) => ReleaseKeeps(s, j);
    case Discard(j) => ReleaseKeeps(s, j);
    case Compile(_, _) =>
    case Confine(j) =>
    case EnterCond =>
    case LeaveCond =>
  }

  /** So does a discarded mark end, whichever way it went. */
  lemma DiscardedGoes(states: seq<System>, steps: seq<Step>, h: nat, i: nat, j: nat, u: Unit, k: nat)
    requires IsRun(states, steps) && Initial(states[0]) && CompiledAt(states, steps, h, u, k)
    requires h < i < j < |steps| && steps[i] == Discard(k) && steps[j] == RetryDead && states[j].condDepth == 0
    requires forall c :: i < c < j && steps[c] == RetryDead ==> states[c].condDepth > 0
    requires Reachable(u) ==> ConfinedIn(steps, h, i, k)
    ensures k < |states[j + 1].marks| && !InUse(states[j + 1], k)
  {
    LastStep(states, steps, j);
    LastStep(states, steps, j + 1);
    MarkOf(states, steps, h, i, u, k);
    MarkOf(states, steps, h, j, u, k);
    DiscardedWaits(states, steps, i, j, k);
    if ConfinedIn(steps, h, i, k) {
      var c :| h < c < i && c < |steps| && steps[c] == Confine(k);
      assert ConfinedIn(steps, h, j, k);
    }
    if states[i].condDepth > 0 {
      assert states[j].dead[0..] == states[j].dead;
      RetryReleases(states[j], 0, k);
    } else {
      ReleaseExactly(states, steps, h, i, u, k);
      LastStep(states, steps, i + 1);
      DiscardExactly(states[i], k);
      FreedOnce(states, steps, i + 1, j + 1, k);
    }
  }

  // ---------- above the top ----------

  /** Words never used, or cleared since. */
  ghost predicate ClearAbove(t: T.Text) {
    forall w :: 0 <= w < |t.words| && t.top < w ==> t.words[w] == 0
  }

  lemma GiveBackClears(t: T.Text, m: T.Mark)
    requires ClearAbove(t) && 0 <= m.textStart <= T.ReleaseEnd(t, m) <= t.top < |t.words| && Canonical(t.holes)
    ensures ClearAbove(T.GiveBack(t, m))
  {
    if !m.inHole && t.top == T.ReleaseEnd(t, m) && m.textStart < t.top { AbsorbSinks(t.holes, m.textStart + 1); }
  }

  lemma ReleaseClears(s: System, k: nat)
    requires Inv(s) && k < |s.marks| && ClearAbove(s.text)
    ensures ClearAbove(ReleaseStep(s, k).0.text)
  {
    var m := s.marks[k].text;
    assert T.Agrees(m, s.textRegs[k]);
    if !m.textDone {
      InRegion(s, k);
      if m.textStart < m.textEnd { assert OwnsWord(s, k, m.textEnd) && OwnsWord(s, k, m.textStart + 1); }
      if 0 <= m.textStart < m.textEnd { GiveBackClears(s.text, m); }
    }
  }

  lemma {:induction false} RetryClears(s: System, i: nat)
    requires Inv(s) && ClearAbove(s.text)
    ensures ClearAbove(Retry(s, i).text)
    decreases |s.dead| - i
  {
    if i < |s.dead| {
      RetryTurns(s, i);
      ReleaseClears(s, s.dead[i]);
      RetryClears(Retried(s, i), if s.condDepth > 0 then i + 1 else i);
    }
  }

  lemma EndClears(s: System, u: Unit)
    requires Inv(s) && CanCompile(s, u, Ended) && ClearAbove(s.text)
    ensures ClearAbove(CompileEnds(s, u).text)
  {
    GeneratedEmits(s, u, Ended);
    if InHole(u) { ListedCells(s.text.holes, s.textOwn, u.textHole); }
  }

  lemma ThrowClears(s: System, u: Unit, late: bool)
    requires Inv(s) && CanCompile(s, u, Threw) && ClearAbove(s.text)
    ensures ClearAbove(CompileThrows(s, u, late).text)
  {
    GeneratedEmits(s, u, Threw);
    if InHole(u) {
      ListedCells(s.text.holes, s.textOwn, u.textHole);
    } else {
      GiveBackClears(Generated(s, u), T.Begin(s.text, u.textHole.start, u.textHole.end, u.newFns).1);
    }
  }

  /** Words above the top are zero in every state of a run that starts so: what a release
      at the top gives back it clears. */
  lemma {:induction false} StaysClear(states: seq<System>, steps: seq<Step>, j: nat)
    requires IsRun(states, steps) && Initial(states[0]) && ClearAbove(states[0].text) && j < |states|
    ensures ClearAbove(states[j].text)
    decreases j
  {
    if j > 0 {
      LastStep(states, steps, j);
      StaysClear(states, steps, j - 1);
      StepClears(states[j - 1], steps[j - 1]);
    }
  }

  lemma StepClears(s: System, st: Step)
    requires Inv(s) && Enabled(s, st) && ClearAbove(s.text)
    ensures ClearAbove(Next(s, st).text)
  {
    match st
    case Compile(u, Ended) => EndClears(s, u);
    case Compile(u, Threw) => ThrowClears(s, u, false);
    case Compile(u, ThrewLate) => ThrowClears(s, u, true);
    case Release(k) => ReleaseClears(s, k);
    case Discard(k) => ReleaseClears(s, k);
    case RetryDead => RetryClears(s, 0);
    case Confine(_) =>
    case EnterCond =>
    case LeaveCond =>
  }
}
