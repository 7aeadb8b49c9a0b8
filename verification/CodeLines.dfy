/** What was compiled is what is found (src/codegen_stmt.c:24-51, src/codegen_func.c:
    800-827, 1122-1404): as long as a compile has not given its words back, they hold what
    it emitted, and the source map holds the locations it recorded for them. */
module CodeLines {
  import opened Holes
  import opened Ownership
  import opened SourceMap
  import opened CodeRuns
  import opened CodeLives
  import T = TextSpace
  import M = TextMap

  /** A location of a word of compile k. */
  ghost predicate LineOf(s: System, k: nat, e: Entry) {
    InUse(s, k) && s.marks[k].text.textStart < e.pc <= s.marks[k].text.textEnd
  }

  /** Dropping the words of one compile keeps the locations of another. */
  lemma DropSparesLine(m: seq<Entry>, start: int, end: int, e: Entry)
    requires SortedByPc(m) && start <= end && !(start <= e.pc < end)
    ensures e in m <==> e in M.Released(m, start, end)
  {
    if start < end {
      ForgetIsOutside(m, start, end);
      OutsideKeeps(m, start, end);
    }
  }

  lemma RegionsApart(s: System, j: nat, k: nat, w: int)
    requires Inv(s) && InUse(s, j) && InUse(s, k) && j != k
    requires s.marks[k].text.textStart < w <= s.marks[k].text.textEnd
    ensures !(s.marks[j].text.textStart < w <= s.marks[j].text.textEnd)
  {
    InRegion(s, j);
    InRegion(s, k);
    assert OwnsWord(s, k, w);
    assert s.marks[j].text.textStart < w <= s.marks[j].text.textEnd ==> OwnsWord(s, j, w);
  }

  /** A release happens, or leaves map and mark as they are. */
  lemma StepMap(s: System, j: nat)
    requires Inv(s) && j < |s.marks|
    ensures var m, s' := s.marks[j].text, ReleaseStep(s, j).0;
      if s.condDepth > 0 || m.textDone || T.MustStay(m) then s'.srcMap == s.srcMap
      else s'.srcMap == ReleasedMap(s.srcMap, s.text, m) && !InUse(s', j)
  {
  }

  lemma ReleasedMapIs(map0: seq<Entry>, t: T.Text, m: T.Mark)
    requires m.ended && !m.textDone && !T.MustStay(m)
    ensures ReleasedMap(map0, t, m) == M.Released(map0, m.textStart + 1, m.textEnd + 1)
  {
  }

  /** What a release drops from the map: nothing, or the locations of its own words. */
  lemma ReleaseMap(s: System, j: nat)
    requires Inv(s) && MapOk(s) && j < |s.marks|
    ensures var m, m' := s.marks[j].text, ReleaseStep(s, j).0.srcMap;
      || m' == s.srcMap
      || (InUse(s, j) && !InUse(ReleaseStep(s, j).0, j) && m.textStart <= m.textEnd
          && m' == M.Released(s.srcMap, m.textStart + 1, m.textEnd + 1))
  {
    var m := s.marks[j].text;
    StepMap(s, j);
    if s.condDepth == 0 && !m.textDone && !T.MustStay(m) {
      assert T.Agrees(m, s.textRegs[j]);
      ReleasedMapIs(s.srcMap, s.text, m);
    }
  }

  lemma MapSparesLine(s: System, j: nat, k: nat, m': seq<Entry>, e: Entry)
    requires Inv(s) && MapOk(s) && InUse(s, j) && j != k && LineOf(s, k, e)
    requires var m := s.marks[j].text;
      m.textStart <= m.textEnd && m' == M.Released(s.srcMap, m.textStart + 1, m.textEnd + 1)
    ensures e in s.srcMap <==> e in m'
  {
    RegionsApart(s, j, k, e.pc);
    var m := s.marks[j].text;
    DropSparesLine(s.srcMap, m.textStart + 1, m.textEnd + 1, e);
  }

  lemma ReleaseSparesLine(s: System, j: nat, k: nat, e: Entry)
    requires Inv(s) && MapOk(s) && j < |s.marks| && InUse(ReleaseStep(s, j).0, k) && LineOf(s, k, e)
    ensures e in s.srcMap <==> e in ReleaseStep(s, j).0.srcMap
  {
    ReleaseMap(s, j);
    var m' := ReleaseStep(s, j).0.srcMap;
    if m' != s.srcMap { MapSparesLine(s, j, k, m', e); }
  }

  lemma {:induction false} RetrySparesLine(s: System, i: nat, k: nat, e: Entry)
    requires Inv(s) && MapOk(s) && InUse(Retry(s, i), k) && LineOf(s, k, e)
    ensures e in s.srcMap <==> e in Retry(s, i).srcMap
    decreases |s.dead| - i
  {
    if i < |s.dead| {
      var s1 := Retried(s, i);
      RetryTurns(s, i);
      RetrySpares(s1, if s.condDepth > 0 then i + 1 else i, k);
      ReleaseSpares(s, s.dead[i], k);
      ReleaseKeepsMap(s, s.dead[i]);
      ReleaseSparesLine(s, s.dead[i], k, e);
      RetrySparesLine(s1, if s.condDepth > 0 then i + 1 else i, k, e);
    }
  }

  /** A compile in a hole adds its own locations and keeps the others. */
  lemma MergedLines(s: System, u: Unit, o: Outcome, e: Entry)
    requires Inv(s) && MapOk(s) && CanCompile(s, u, o) && InHole(u)
    ensures e in M.Finished(s.srcMap, Located(s, u), true) <==> e in s.srcMap || e in Located(s, u)
  {
    LocatedInside(s, u, o);
    HoleFacts(s, u, o);
    M.HoleMerges(s.srcMap, Located(s, u), u.textHole);
    assert e in multiset(Merge(s.srcMap, Located(s, u))) <==> e in multiset(s.srcMap) + multiset(Located(s, u));
  }

  /** What a compile that ends adds to the map: the locations it recorded. */
  lemma EndAddsLines(s: System, u: Unit, e: Entry)
    requires Inv(s) && MapOk(s) && CanCompile(s, u, Ended)
    ensures e in CompileEnds(s, u).srcMap <==> e in s.srcMap || e in Located(s, u)
  {
    if InHole(u) { MergedLines(s, u, Ended, e); }
  }

  /** A compile records no location for a word in use. */
  lemma NotRecorded(s: System, u: Unit, o: Outcome, e: Entry)
    requires Inv(s) && MapOk(s) && CanCompile(s, u, o) && !Dangles(s, Compile(u, o)) && e in Located(s, u)
    ensures 0 <= e.pc < |s.textOwn| ==> !s.textOwn[e.pc].Of?
  {
    LocatedInside(s, u, o);
    var i :| 0 <= i < |Located(s, u)| && Located(s, u)[i] == e;
    if InHole(u) { HoleFacts(s, u, o); }
  }

  lemma EndSparesLine(s: System, u: Unit, k: nat, e: Entry)
    requires Inv(s) && MapOk(s) && CanCompile(s, u, Ended) && !Dangles(s, Compile(u, Ended)) && LineOf(s, k, e)
    ensures e in s.srcMap <==> e in CompileEnds(s, u).srcMap
  {
    EndAddsLines(s, u, e);
    InRegion(s, k);
    assert OwnsWord(s, k, e.pc);
    if e in Located(s, u) { NotRecorded(s, u, Ended, e); }
  }

  lemma ThrowAtTopSpares(s: System, u: Unit, late: bool, s': System)
    requires Inv(s) && MapOk(s) && CanCompile(s, u, Threw) && !Dangles(s, Compile(u, Threw))
    requires !InHole(u) && s' == CompileThrows(s, u, late)
    ensures s'.srcMap == s.srcMap
  {
    LocatedInside(s, u, Threw);
    CodeRuns.ThrownAtTop(s, u, late, s');
    M.ThrownAtTop(s.srcMap, s.textOwn, Located(s, u), Generated(s, u).top + 1);
  }

  lemma ThrowSparesLines(s: System, u: Unit, late: bool)
    requires Inv(s) && MapOk(s) && CanCompile(s, u, Threw) && !Dangles(s, Compile(u, Threw))
    ensures CompileThrows(s, u, late).srcMap == s.srcMap
  {
    if InHole(u) {
      ThrowsInHoleMap(s, u, late, CompileThrows(s, u, late));
    } else {
      ThrowAtTopSpares(s, u, late, CompileThrows(s, u, late));
    }
  }

  lemma StepSparesLine(s: System, st: Step, k: nat, e: Entry)
    requires Inv(s) && MapOk(s) && Enabled(s, st) && !Dangles(s, st) && InUse(Next(s, st), k) && LineOf(s, k, e)
    ensures e in s.srcMap <==> e in Next(s, st).srcMap
  {
    match st
    case Compile(u, Ended) => EndSparesLine(s, u, k, e);
    case Compile(u, Threw) => ThrowSparesLines(s, u, false);
    case Compile(u, ThrewLate) => ThrowSparesLines(s, u, true);
    case Release(j) => ReleaseSparesLine(s, j, k, e);
    case Discard(j) => ReleaseSparesLine(s, j, k, e);
    case RetryDead => RetrySparesLine(s, 0, k, e);
    case Confine(j) =>
    case EnterCond =>
    case LeaveCond =>
  }

  /** As long as compile k is in use its locations stay, and it gets no others. */
  lemma {:induction false} LinesStay(states: seq<System>, steps: seq<Step>, i: nat, j: nat, k: nat, e: Entry)
    requires IsRun(states, steps) && Initial(states[0]) && i <= j < |states|
    requires forall c :: 0 <= c < j ==> !Dangling(states[c], steps[c])
    requires k < |states[i].marks| && InUse(states[j], k) && LineOf(states[i], k, e)
    ensures e in states[i].srcMap <==> e in states[j].srcMap
    decreases j - i
  {
    if i < j {
      LastStep(states, steps, j);
      RunKeepsMap(states, steps, j - 1);
      MarksOnlyGrow(states, steps, i, j - 1);
      StepSpares(states[j - 1], steps[j - 1], k);
      CodeStays(states, steps, i, j - 1, k);
      LinesStay(states, steps, i, j - 1, k, e);
      assert !Dangling(states[j - 1], steps[j - 1]);
      StepSparesLine(states[j - 1], steps[j - 1], k, e);
    }
  }

  // ---------- what is there ----------

  /** Where the words of a compile of u begin, less one. */
  function StartOf(s: System, u: Unit): int {
    if InHole(u) then u.textHole.start - 1 else s.text.top
  }

  /** Word x of the unit stands in its place. */
  ghost predicate WordThere(t: T.Text, u: Unit, start: int, x: nat)
    requires x < |u.items| && u.items[x].Word?
  {
    var pc := start + 1 + M.WordsBefore(u.items, x);
    0 <= pc < |t.words| && t.words[pc] == u.items[x].value
  }

  /** The location that item x records. */
  function LineAt(u: Unit, start: int, x: nat): Entry
    requires x < |u.items| && u.items[x].Source?
  {
    Entry(start + 1 + M.WordsBefore(u.items, x), u.items[x].file, u.items[x].line)
  }

  /** A compile that ends has emitted every word and recorded every location, those and no
      others, in order. */
  lemma Compiled(s: System, u: Unit)
    requires Inv(s) && CanCompile(s, u, Ended)
    ensures var s' := CompileEnds(s, u); var m := s'.marks[|s.marks|].text;
      && m.textStart == StartOf(s, u) && m.textEnd == m.textStart + M.WordsBefore(u.items, |u.items|)
      && (forall x: nat :: x < |u.items| && u.items[x].Word? ==> WordThere(s'.text, u, m.textStart, x))
    ensures |Located(s, u)| == M.SourcesBefore(u.items, |u.items|)
    ensures forall x: nat :: x < |u.items| && u.items[x].Source? ==>
      && M.SourcesBefore(u.items, x) < |Located(s, u)|
      && Located(s, u)[M.SourcesBefore(u.items, x)] == LineAt(u, StartOf(s, u), x)
  {
    var t, g := Begun(s, u), Generated(s, u);
    var n := M.EmittedExactly(t, u.items);
    assert n == |u.items|;
    var s' := CompileEnds(s, u);
    assert s'.text.words == g.words && t.top == StartOf(s, u);
    forall x: nat | x < |u.items| && u.items[x].Word? ensures WordThere(s'.text, u, t.top, x) {
      assert M.TookEffect(t, u.items, g, Located(s, u), x);
    }
    forall x: nat | x < |u.items| && u.items[x].Source?
      ensures M.SourcesBefore(u.items, x) < |Located(s, u)|
      ensures Located(s, u)[M.SourcesBefore(u.items, x)] == LineAt(u, StartOf(s, u), x)
    {
      assert M.TookEffect(t, u.items, g, Located(s, u), x);
    }
  }

  /** Whatever happened since, every word a compile emitted stands where it was put, as long
      as the compile has not given its words back. */
  lemma CodeIs(states: seq<System>, steps: seq<Step>, i: nat, j: nat, u: Unit, k: nat, x: nat)
    requires IsRun(states, steps) && Initial(states[0]) && CompiledAt(states, steps, i, u, k) && i < j < |states|
    requires InUse(states[j], k) && x < |u.items| && u.items[x].Word?
    ensures WordThere(states[j].text, u, StartOf(states[i], u), x)
  {
    LastStep(states, steps, i + 1);
    Compiled(states[i], u);
    assert WordThere(states[i + 1].text, u, StartOf(states[i], u), x);
    CodeStays(states, steps, i + 1, j, k);
    WordKept(states[i + 1], states[j], k, u, StartOf(states[i], u), x);
  }

  lemma WordKept(s: System, s': System, k: nat, u: Unit, start: int, x: nat)
    requires SameCode(s, s', k) && x < |u.items| && u.items[x].Word? && WordThere(s.text, u, start, x)
    requires s.marks[k].text.textStart == start
    requires s.marks[k].text.textEnd == start + M.WordsBefore(u.items, |u.items|)
    ensures WordThere(s'.text, u, start, x)
  {
    BeforeEnd(u.items, x);
    assert SameWord(s.text, s'.text, start + 1 + M.WordsBefore(u.items, x));
  }

  lemma {:induction false} BeforeEnd(items: seq<T.Item>, x: nat)
    requires x < |items| && items[x].Word?
    ensures M.WordsBefore(items, x) < M.WordsBefore(items, |items|)
    decreases |items|
  {
    if x > 0 { BeforeEnd(items[1..], x - 1); }
  }

  /** And every location it recorded is in the map, with its file and line, at the word it
      was recorded for. */
  lemma LinesAre(states: seq<System>, steps: seq<Step>, i: nat, j: nat, u: Unit, k: nat, x: nat)
    requires IsRun(states, steps) && Initial(states[0]) && CompiledAt(states, steps, i, u, k) && i < j < |states|
    requires forall c :: 0 <= c < j ==> !Dangling(states[c], steps[c])
    requires InUse(states[j], k) && x < |u.items| && u.items[x].Source?
    ensures LineAt(u, StartOf(states[i], u), x) in states[j].srcMap
  {
    LastStep(states, steps, i + 1);
    RunKeepsMap(states, steps, i);
    Compiled(states[i], u);
    var e := LineAt(u, StartOf(states[i], u), x);
    EndAddsLines(states[i], u, e);
    assert !Dangling(states[i], steps[i]);
    CodeStays(states, steps, i + 1, j, k);
    InsideUnit(states[i], u, e);
    LinesStay(states, steps, i + 1, j, k, e);
  }

  lemma InsideUnit(s: System, u: Unit, e: Entry)
    requires Inv(s) && CanCompile(s, u, Ended) && !Dangles(s, Compile(u, Ended)) && e in Located(s, u)
    ensures var m := CompileEnds(s, u).marks[|s.marks|].text; m.textStart < e.pc <= m.textEnd
  {
    LocatedInside(s, u, Ended);
    var i :| 0 <= i < |Located(s, u)| && Located(s, u)[i] == e;
  }
}
