/** Whole runs of the mark protocol (src/codegen_func.c:1121-1434): compiles at
    the top or in holes, ended or thrown, releases, discards and retries, in any
    order, over text and data together. */
module CodeRuns {
  import opened Holes
  import opened Ownership
  import opened SourceMap
  import T = TextSpace
  import M = TextMap
  import D = DataSpace

  /** A CcCodeMark, as its text and data halves. */
  datatype Mark = Mark(text: T.Mark, data: D.Mark)

  /** The segments, the source map, every mark ever begun, the discarded ones waiting to
      be retried, cond_depth, and who owns what (a record the code does not keep). */
  datatype System = System(text: T.Text, srcMap: seq<Entry>, data: D.Data, marks: seq<Mark>, dead: seq<nat>,
                           condDepth: nat,
                           textOwn: seq<Owner>, textRegs: seq<Hole>, dataOwn: seq<Owner>, dataRegs: seq<Hole>)

  /** What one incremental compile was asked to do. */
  datatype Unit = Unit(vars: seq<D.Var>, items: seq<T.Item>, newFns: nat, labelsGrew: bool,
                       textHole: Hole, wantData: bool, dataHole: Hole)

  /** Where a compile stops: at its end, while generating code, or after its hole
      was left. */
  datatype Outcome = Ended | Threw | ThrewLate

  datatype Step =
    | Compile(u: Unit, o: Outcome)
    | Confine(k: nat)
    | Release(k: nat)
    | Discard(k: nat)
    | RetryDead
    | EnterCond
    | LeaveCond

  // ---------- the operations ----------

  /** cc_code_release on an idle mark: 1 given back, 0 wait, -1 the text stays. */
  function ReleaseStep(s: System, k: nat): (System, int)
    requires k < |s.marks| == |s.textRegs| == |s.dataRegs|
  {
    if s.condDepth > 0 then (s, 0)
    else
      var m := s.marks[k];
      var (d, dm) := D.Release(s.data, m.data);
      var (t, tm, rc) := T.Release(s.text, m.text);
      (s.(text := t, srcMap := ReleasedMap(s.srcMap, s.text, m.text), data := d, marks := s.marks[k := Mark(tm, dm)],
          textOwn := T.ReleasedOwn(s.textOwn, s.text, m.text),
          textRegs := if tm.textDone then s.textRegs[k := Hole(0, 0)] else s.textRegs,
          dataOwn := D.ReleasedOwn(s.dataOwn, s.data, m.data),
          dataRegs := if dm.dataDone then s.dataRegs[k := Hole(0, 0)] else s.dataRegs), rc)
  }

  /** The map after a release of mark m. */
  function ReleasedMap(map0: seq<Entry>, t: T.Text, m: T.Mark): seq<Entry> {
    if m.textDone || T.MustStay(m) then map0 else M.Released(map0, m.textStart + 1, T.ReleaseEnd(t, m) + 1)
  }

  /** cc_code_retry_dead. */
  function Retry(s: System, i: nat): System
    requires |s.marks| == |s.textRegs| == |s.dataRegs|
    requires forall j :: 0 <= j < |s.dead| ==> s.dead[j] < |s.marks|
    decreases |s.dead| - i, 1
  {
    if i >= |s.dead| then s else RetryAfter(ReleaseStep(s, s.dead[i]).0, i, ReleaseStep(s, s.dead[i]).1)
  }

  /** The rest of the loop once dead mark i was tried: it waits on, or leaves the list. */
  function RetryAfter(s: System, i: nat, rc: int): System
    requires |s.marks| == |s.textRegs| == |s.dataRegs| && i < |s.dead|
    requires forall j :: 0 <= j < |s.dead| ==> s.dead[j] < |s.marks|
    decreases |s.dead| - i, 0
  {
    if rc == 0 then Retry(s, i + 1) else Retry(s.(dead := s.dead[..i] + s.dead[i + 1..]), i)
  }

  predicate InHole(u: Unit) {
    u.newFns > 0 && u.textHole.start != 0
  }

  /** The text as code generation starts on it. */
  function Begun(s: System, u: Unit): T.Text {
    T.Begin(s.text, u.textHole.start, u.textHole.end, u.newFns).0
  }

  /** The text when code generation stopped, whether or not it threw. */
  function Generated(s: System, u: Unit): T.Text
    requires 0 <= s.text.top && (InHole(u) ==> 0 < u.textHole.start)
  {
    T.EmitAll(Begun(s, u), u.items).0
  }

  /** The locations recorded until then. */
  function Located(s: System, u: Unit): seq<Entry>
    requires 0 <= s.text.top && (InHole(u) ==> 0 < u.textHole.start)
  {
    M.Located(Begun(s, u), u.items)
  }

  /** A compile names listed holes, and one that throws is released at once, which takes
      cond_depth 0: TextSpace.LateReleaseTakesLive is what a later release would do. */
  ghost predicate CanCompile(s: System, u: Unit, o: Outcome) {
    && D.Aligned(u.vars) && 0 <= s.data.ptr && 0 <= s.text.top
    && (InHole(u) ==> 0 < u.textHole.start && Listed(s.text.holes, u.textHole))
    && (u.wantData ==> 0 <= u.dataHole.start && Listed(s.data.holes, u.dataHole))
    && (u.newFns == 0 ==> u.items == [])
    && (if o.Ended? then T.EmitAll(Begun(s, u), u.items).1 else s.condDepth == 0)
  }

  /** cc_repl_compile_new_marked that ends. */
  function CompileEnds(s: System, u: Unit): System
    requires D.Aligned(u.vars) && 0 <= s.data.ptr && (u.wantData ==> 0 <= u.dataHole.start)
    requires 0 <= s.text.top && (InHole(u) ==> 0 < u.textHole.start)
  {
    var (d, dm) := D.Place(s.data, u.vars, u.wantData, u.dataHole);
    var g := Generated(s, u);
    var (t, tm) := T.Finish(g, T.Begin(s.text, u.textHole.start, u.textHole.end, u.newFns).1, u.labelsGrew);
    var dm' := D.Finish(d, dm);
    s.(text := t, srcMap := M.Finished(s.srcMap, Located(s, u), InHole(u)), data := d,
      marks := s.marks + [Mark(tm, dm')],
       textOwn := if InHole(u) then Marked(s.textOwn, u.textHole.start, g.top + 1, Of(|s.marks|))
                  else Grown(s.textOwn, g.top + 1, Of(|s.marks|)),
       textRegs := s.textRegs + [Hole(tm.textStart + 1, tm.textEnd + 1)],
       dataOwn := D.PlacedOwn(s.dataOwn, d, dm', |s.marks|),
       dataRegs := s.dataRegs + [D.Region(d, dm')])
  }

  /** One that throws, and the release that follows it at once. */
  function CompileThrows(s: System, u: Unit, late: bool): System
    requires D.Aligned(u.vars) && 0 <= s.data.ptr && (u.wantData ==> 0 <= u.dataHole.start)
    requires 0 <= s.text.top && (InHole(u) ==> 0 < u.textHole.start)
  {
    var (d, dm) := D.Place(s.data, u.vars, u.wantData, u.dataHole);
    var g := Generated(s, u);
    var tm := T.Begin(s.text, u.textHole.start, u.textHole.end, u.newFns).1;
    var (t1, tm1) := if !InHole(u) then (g, tm) else if late then T.LeaveHole(g, tm) else T.RestoreTop(g, tm);
    var (d2, dm2) := D.Release(d, dm);
    var (t2, tm2, _) := T.Release(t1, tm1);
    s.(text := t2, srcMap := M.Released(M.Finished(s.srcMap, Located(s, u), InHole(u)), Begun(s, u).top + 1, g.top + 1),
       data := d2, marks := s.marks + [Mark(tm2, dm2)],
       textOwn := if !InHole(u) then Prefix(s.textOwn, t2.top + 1)
                  else if late then Marked(s.textOwn, u.textHole.start, g.top + 1, LostCell) else s.textOwn,
       textRegs := s.textRegs + [Hole(0, 0)],
       dataOwn := D.ReleasedOwn(D.PlacedOwn(s.dataOwn, d, dm, |s.marks|), d, dm),
       dataRegs := s.dataRegs + [if dm2.dataDone then Hole(0, 0) else D.Region(d, dm)])
  }

  ghost predicate Enabled(s: System, st: Step) {
    match st
    case Compile(u, o) => CanCompile(s, u, o)
    case Confine(k) => k < |s.marks| && k !in s.dead && s.marks[k].text.ended
    case Release(k) => k < |s.marks| && k !in s.dead
    case Discard(k) => k < |s.marks| && k !in s.dead
    case RetryDead => true
    case EnterCond => true
    case LeaveCond => s.condDepth > 0
  }

  ghost function Next(s: System, st: Step): System
    requires Wf(s) && Enabled(s, st)
  {
    match st
    case Compile(u, Ended) => CompileEnds(s, u)
    case Compile(u, Threw) => CompileThrows(s, u, false)
    case Compile(u, ThrewLate) => CompileThrows(s, u, true)
    case Confine(k) =>
      var m := s.marks[k];
      s.(marks := s.marks[k := Mark(m.text.(confined := true), m.data.(confined := true))])
    case Release(k) => ReleaseStep(s, k).0
    case Discard(k) =>
      var (s1, rc) := ReleaseStep(s, k);
      if rc == 0 then s1.(dead := s1.dead + [k]) else s1
    case RetryDead => Retry(s, 0)
    case EnterCond => s.(condDepth := s.condDepth + 1)
    case LeaveCond => s.(condDepth := s.condDepth - 1)
  }

  // ---------- the invariant of every run ----------

  ghost predicate Wf(s: System) {
    && |s.marks| == |s.textRegs| == |s.dataRegs|
    && (forall j :: 0 <= j < |s.dead| ==> s.dead[j] < |s.marks|)
  }

  ghost predicate DataAgrees(m: D.Mark, r: Hole) {
    if m.dataDone then r == Hole(0, 0)
    else (m.ended || m.inHole) && 0 <= m.dataStart <= m.dataEnd && r == Hole(m.dataStart, m.dataEnd)
  }

  ghost predicate MarksAgree(s: System)
    requires Wf(s)
  {
    forall k :: 0 <= k < |s.marks| ==>
      T.Agrees(s.marks[k].text, s.textRegs[k]) && DataAgrees(s.marks[k].data, s.dataRegs[k])
  }

  ghost predicate Inv(s: System) {
    && Wf(s) && MarksAgree(s)
    && T.TextInv(s.text, s.textOwn, s.textRegs)
    && D.DataInv(s.data, s.dataOwn, s.dataRegs)
  }

  lemma ReleaseKeeps(s: System, k: nat)
    requires Inv(s) && k < |s.marks|
    ensures var (s', rc) := ReleaseStep(s, k);
      && Inv(s') && |s'.marks| == |s.marks| && s'.dead == s.dead && s'.condDepth == s.condDepth
      && (rc == 0 <==> s.condDepth > 0)
  {
    if s.condDepth == 0 {
      var m := s.marks[k];
      T.ReleaseKeeps(s.text, s.textOwn, s.textRegs, k, m.text);
      D.ReleaseKeeps(s.data, s.dataOwn, s.dataRegs, k, m.data);
      if m.data.dataDone { assert s.dataRegs[k := Hole(0, 0)] == s.dataRegs; }
    }
  }

  lemma {:induction false} RetryKeeps(s: System, i: nat)
    requires Inv(s)
    ensures Inv(Retry(s, i))
    ensures s.condDepth > 0 ==> Retry(s, i) == s
    ensures s.condDepth == 0 && i == 0 ==> Retry(s, i).dead == []
    decreases |s.dead| - i
  {
    if i < |s.dead| {
      var (s1, rc) := ReleaseStep(s, s.dead[i]);
      ReleaseKeeps(s, s.dead[i]);
      if rc == 0 {
        RetryKeeps(s1, i + 1);
      } else {
        RetryKeeps(s1.(dead := s1.dead[..i] + s1.dead[i + 1..]), i);
      }
    }
  }

  lemma GeneratedEmits(s: System, u: Unit, o: Outcome)
    requires CanCompile(s, u, o)
    ensures T.Emitted(Begun(s, u), Generated(s, u))
  {
    T.EmitAllEmits(Begun(s, u), u.items);
  }

  lemma TextCompileInHole(s: System, u: Unit)
    requires T.TextInv(s.text, s.textOwn, s.textRegs) && |s.textRegs| == |s.marks| && CanCompile(s, u, Ended)
    requires InHole(u)
    ensures var s' := CompileEnds(s, u);
      && T.TextInv(s'.text, s'.textOwn, s'.textRegs)
      && T.Agrees(s'.marks[|s.marks|].text, s'.textRegs[|s.marks|])
  {
    GeneratedEmits(s, u, Ended);
    var g, s' := Generated(s, u), CompileEnds(s, u);
    T.UnitInHole(s.text, s.textOwn, s.textRegs, u.textHole, u.newFns, g, u.labelsGrew);
    assert s'.textRegs == s.textRegs + [Hole(u.textHole.start, g.top + 1)];
    assert s'.textOwn == Marked(s.textOwn, u.textHole.start, g.top + 1, Of(|s.textRegs|));
  }

  lemma TextCompileAtTop(s: System, u: Unit)
    requires T.TextInv(s.text, s.textOwn, s.textRegs) && |s.textRegs| == |s.marks| && CanCompile(s, u, Ended)
    requires !InHole(u)
    ensures var s' := CompileEnds(s, u);
      && T.TextInv(s'.text, s'.textOwn, s'.textRegs)
      && T.Agrees(s'.marks[|s.marks|].text, s'.textRegs[|s.marks|])
  {
    GeneratedEmits(s, u, Ended);
    T.UnitAtTop(s.text, s.textOwn, s.textRegs, u.textHole, u.newFns, Generated(s, u), u.labelsGrew);
  }

  lemma DataCompileKeeps(s: System, u: Unit)
    requires D.DataInv(s.data, s.dataOwn, s.dataRegs) && |s.dataRegs| == |s.marks|
    requires 0 <= s.text.top && (InHole(u) ==> 0 < u.textHole.start)
    requires D.Aligned(u.vars) && 0 <= s.data.ptr
        && (u.wantData ==> 0 <= u.dataHole.start && Listed(s.data.holes, u.dataHole))
    ensures var s' := CompileEnds(s, u);
      && D.DataInv(s'.data, s'.dataOwn, s'.dataRegs)
      && DataAgrees(s'.marks[|s.marks|].data, s'.dataRegs[|s.marks|])
  {
    D.PlaceKeeps(s.data, s.dataOwn, s.dataRegs, u.vars, u.wantData, u.dataHole);
    var (d, dm) := D.Place(s.data, u.vars, u.wantData, u.dataHole);
    assert D.Region(d, D.Finish(d, dm)) == D.Region(d, dm);
    assert D.PlacedOwn(s.dataOwn, d, D.Finish(d, dm), |s.marks|) == D.PlacedOwn(s.dataOwn, d, dm, |s.marks|);
  }

  lemma CompileEndsKeeps(s: System, u: Unit)
    requires Inv(s) && CanCompile(s, u, Ended)
    ensures Inv(CompileEnds(s, u))
  {
    if InHole(u) { TextCompileInHole(s, u); } else { TextCompileAtTop(s, u); }
    DataCompileKeeps(s, u);
  }

  lemma TextThrowAtTop(s: System, u: Unit, late: bool)
    requires T.TextInv(s.text, s.textOwn, s.textRegs) && |s.textRegs| == |s.marks| && CanCompile(s, u, Threw)
    requires !InHole(u)
    ensures var s' := CompileThrows(s, u, late);
      && T.TextInv(s'.text, s'.textOwn, s'.textRegs)
      && T.Agrees(s'.marks[|s.marks|].text, s'.textRegs[|s.marks|])
  {
    GeneratedEmits(s, u, Threw);
    T.ThrowAtTop(s.text, s.textOwn, s.textRegs, Generated(s, u),
                 T.Begin(s.text, u.textHole.start, u.textHole.end, u.newFns).1);
  }

  lemma TextThrowInHole(s: System, u: Unit)
    requires T.TextInv(s.text, s.textOwn, s.textRegs) && |s.textRegs| == |s.marks| && CanCompile(s, u, Threw)
    requires InHole(u)
    ensures var s' := CompileThrows(s, u, false);
      && s'.text == s.text && T.TextInv(s'.text, s'.textOwn, s'.textRegs)
      && T.Agrees(s'.marks[|s.marks|].text, s'.textRegs[|s.marks|])
  {
    GeneratedEmits(s, u, Threw);
    T.ThrowInHole(s.text, s.textOwn, s.textRegs, u.textHole, Generated(s, u),
                  T.Begin(s.text, u.textHole.start, u.textHole.end, u.newFns).1);
    assert s.textOwn[..|s.textOwn|] == s.textOwn;
    OwnedAddsEmpty(s.textOwn, |s.textOwn|, s.textRegs);
  }

  lemma TextThrowLate(s: System, u: Unit)
    requires T.TextInv(s.text, s.textOwn, s.textRegs) && |s.textRegs| == |s.marks| && CanCompile(s, u, Threw)
    requires InHole(u)
    ensures var s' := CompileThrows(s, u, true);
      && T.TextInv(s'.text, s'.textOwn, s'.textRegs)
      && T.Agrees(s'.marks[|s.marks|].text, s'.textRegs[|s.marks|])
  {
    GeneratedEmits(s, u, Threw);
    T.ThrowAfterHole(s.text, s.textOwn, s.textRegs, u.textHole, Generated(s, u),
                     T.Begin(s.text, u.textHole.start, u.textHole.end, u.newFns).1);
  }

  lemma DataThrowKeeps(s: System, u: Unit, late: bool)
    requires D.DataInv(s.data, s.dataOwn, s.dataRegs) && |s.dataRegs| == |s.marks|
    requires 0 <= s.text.top && (InHole(u) ==> 0 < u.textHole.start)
    requires D.Aligned(u.vars) && 0 <= s.data.ptr
        && (u.wantData ==> 0 <= u.dataHole.start && Listed(s.data.holes, u.dataHole))
    ensures var s' := CompileThrows(s, u, late);
      && D.DataInv(s'.data, s'.dataOwn, s'.dataRegs)
      && DataAgrees(s'.marks[|s.marks|].data, s'.dataRegs[|s.marks|])
  {
    D.PlaceThenRelease(s.data, s.dataOwn, s.dataRegs, u.vars, u.wantData, u.dataHole);
  }

  lemma CompileThrowsKeeps(s: System, u: Unit, late: bool)
    requires Inv(s) && CanCompile(s, u, Threw)
    ensures Inv(CompileThrows(s, u, late))
  {
    if !InHole(u) {
      TextThrowAtTop(s, u, late);
    } else if late {
      TextThrowLate(s, u);
    } else {
      TextThrowInHole(s, u);
    }
    DataThrowKeeps(s, u, late);
  }

  /** Every enabled step keeps the invariant. */
  lemma StepKeeps(s: System, st: Step)
    requires Inv(s) && Enabled(s, st)
    ensures Inv(Next(s, st))
  {
    match st
    case Compile(u, Ended) => CompileEndsKeeps(s, u);
    case Compile(u, Threw) => CompileThrowsKeeps(s, u, false);
    case Compile(u, ThrewLate) => CompileThrowsKeeps(s, u, true);
    case Confine(k) =>
    case Release(k) => ReleaseKeeps(s, k);
    case Discard(k) => ReleaseKeeps(s, k);
    case RetryDead => RetryKeeps(s, 0);
    case EnterCond =>
    case LeaveCond =>
  }

  // ---------- the source map ----------

  /** The source map is in order and describes live words only. */
  ghost predicate MapOk(s: System) {
    M.MapInv(s.srcMap, s.textOwn)
  }

  /** The step is a compile that recorded a location for a word that never came. */
  ghost predicate Dangles(s: System, st: Step)
    requires 0 <= s.text.top && (st.Compile? && InHole(st.u) ==> 0 < st.u.textHole.start)
  {
    st.Compile? && M.Dangling(Located(s, st.u), Generated(s, st.u).top + 1)
  }

  /** The same of a step that can be taken. */
  ghost predicate Dangling(s: System, st: Step) {
    0 <= s.text.top && (st.Compile? && InHole(st.u) ==> 0 < st.u.textHole.start) && Dangles(s, st)
  }

  lemma ReleaseOnlyDrops(t: T.Text, own: seq<Owner>, regs: seq<Hole>, k: nat, m: T.Mark)
    requires T.TextInv(t, own, regs) && k < |regs| && T.Agrees(m, regs[k]) && !m.textDone && !T.MustStay(m)
    ensures T.OnlyDrops(own, T.ReleasedOwn(own, t, m), m.textStart + 1, T.ReleaseEnd(t, m) + 1)
    ensures m.textStart <= T.ReleaseEnd(t, m)
  {
    T.GiveBackKeeps(t, own, regs, k, m);
  }

  lemma DroppedMapKeeps(map0: seq<Entry>, t: T.Text, own: seq<Owner>, m: T.Mark, own': seq<Owner>)
    requires M.MapInv(map0, own) && !m.textDone && !T.MustStay(m) && m.textStart <= T.ReleaseEnd(t, m)
    requires T.OnlyDrops(own, own', m.textStart + 1, T.ReleaseEnd(t, m) + 1)
    ensures M.MapInv(ReleasedMap(map0, t, m), own')
  {
    M.DropsMap(map0, own, own', m.textStart + 1, T.ReleaseEnd(t, m) + 1);
  }

  lemma ReleasedMapKeeps(map0: seq<Entry>, t: T.Text, own: seq<Owner>, regs: seq<Hole>, k: nat, m: T.Mark)
    requires T.TextInv(t, own, regs) && M.MapInv(map0, own) && k < |regs| && T.Agrees(m, regs[k])
    ensures M.MapInv(ReleasedMap(map0, t, m), T.ReleasedOwn(own, t, m))
  {
    if !m.textDone && !T.MustStay(m) {
      ReleaseOnlyDrops(t, own, regs, k, m);
      DroppedMapKeeps(map0, t, own, m, T.ReleasedOwn(own, t, m));
    }
  }

  lemma ReleaseKeepsMap(s: System, k: nat)
    requires Inv(s) && MapOk(s) && k < |s.marks|
    ensures MapOk(ReleaseStep(s, k).0)
  {
    if s.condDepth == 0 {
      ReleasedMapKeeps(s.srcMap, s.text, s.textOwn, s.textRegs, k, s.marks[k].text);
    }
  }

  lemma {:induction false} RetryKeepsMap(s: System, i: nat)
    requires Inv(s) && MapOk(s)
    ensures MapOk(Retry(s, i))
    decreases |s.dead| - i
  {
    if i < |s.dead| {
      var (s1, rc) := ReleaseStep(s, s.dead[i]);
      ReleaseKeeps(s, s.dead[i]);
      ReleaseKeepsMap(s, s.dead[i]);
      if rc == 0 {
        RetryKeepsMap(s1, i + 1);
      } else {
        RetryKeepsMap(s1.(dead := s1.dead[..i] + s1.dead[i + 1..]), i);
      }
    }
  }

  /** Where a compile's locations lie. */
  lemma LocatedInside(s: System, u: Unit, o: Outcome)
    requires Inv(s) && CanCompile(s, u, o)
    ensures var b, lo, next := Located(s, u), Begun(s, u).top + 1, Generated(s, u).top + 1;
      lo <= next && SortedByPc(b) && Inside(b, lo, next + 1) && (!M.Dangling(b, next) ==> Inside(b, lo, next))
  {
    M.LocatedInside(Begun(s, u), u.items);
    M.NoneDangling(Located(s, u), Begun(s, u).top + 1, Generated(s, u).top + 1);
  }

  /** What a compile into its hole finds there. */
  lemma HoleFacts(s: System, u: Unit, o: Outcome)
    requires Inv(s) && MapOk(s) && CanCompile(s, u, o) && InHole(u)
    ensures var x := u.textHole;
      && Begun(s, u).top + 1 == x.start <= Generated(s, u).top + 1 <= x.end <= |s.textOwn|
      && Clear(s.srcMap, x.start, x.end) && (forall w :: x.start <= w < x.end ==> s.textOwn[w] == FreeCell)
  {
    GeneratedEmits(s, u, o);
    ListedCells(s.text.holes, s.textOwn, u.textHole);
    M.HoleIsClear(s.srcMap, s.text.holes, s.textOwn, u.textHole);
    forall w | u.textHole.start <= w < u.textHole.end ensures s.textOwn[w] == FreeCell { assert In(u.textHole, w); }
  }

  lemma CompileEndsKeepsMap(s: System, u: Unit)
    requires Inv(s) && MapOk(s) && CanCompile(s, u, Ended) && !Dangles(s, Compile(u, Ended))
    ensures MapOk(CompileEnds(s, u))
  {
    var s', b, next := CompileEnds(s, u), Located(s, u), Generated(s, u).top + 1;
    GeneratedEmits(s, u, Ended);
    LocatedInside(s, u, Ended);
    if InHole(u) {
      HoleFacts(s, u, Ended);
      M.HoleMap(s.srcMap, s.textOwn, b, u.textHole, next, s'.textOwn);
    } else {
      M.TopMap(s.srcMap, s.textOwn, b, next, s'.textOwn);
    }
  }

  lemma ThrownAtTop(s: System, u: Unit, late: bool, s': System)
    requires Inv(s) && CanCompile(s, u, Threw) && !InHole(u) && s' == CompileThrows(s, u, late)
    ensures s'.srcMap == M.Released(s.srcMap + Located(s, u), |s.textOwn|, Generated(s, u).top + 1)
    ensures 0 <= s'.text.top < |s.textOwn| && s'.textOwn == s.textOwn[..s'.text.top + 1]
    ensures forall w :: s'.text.top < w < |s.textOwn| ==> !s.textOwn[w].Of?
  {
    GeneratedEmits(s, u, Threw);
    T.ThrowAtTop(s.text, s.textOwn, s.textRegs, Generated(s, u),
                 T.Begin(s.text, u.textHole.start, u.textHole.end, u.newFns).1);
  }

  /** After a throw at the top the map is right exactly when no location was left
      dangling: the word that never came is nobody's. */
  lemma ThrowsAtTopMap(s: System, u: Unit, late: bool, s': System)
    requires Inv(s) && MapOk(s) && CanCompile(s, u, Threw) && !InHole(u) && s' == CompileThrows(s, u, late)
    ensures MapOk(s') <==> !Dangles(s, Compile(u, Threw))
  {
    LocatedInside(s, u, Threw);
    ThrownAtTop(s, u, late, s');
    M.ThrowMapExact(s.srcMap, s.textOwn, Located(s, u), Generated(s, u).top + 1, s'.text.top + 1);
  }

  lemma ThrownInHole(s: System, u: Unit, late: bool, s': System)
    requires Inv(s) && CanCompile(s, u, Threw) && InHole(u) && s' == CompileThrows(s, u, late)
    ensures s'.srcMap == M.Released(M.Finished(s.srcMap, Located(s, u), true), u.textHole.start,
        Generated(s, u).top + 1)
  {
  }

  /** After one in a hole the map is as it was exactly then. */
  lemma ThrowsInHoleMap(s: System, u: Unit, late: bool, s': System)
    requires Inv(s) && MapOk(s) && CanCompile(s, u, Threw) && InHole(u) && s' == CompileThrows(s, u, late)
    ensures s'.srcMap == s.srcMap <==> !Dangles(s, Compile(u, Threw))
  {
    LocatedInside(s, u, Threw);
    HoleFacts(s, u, Threw);
    ThrownInHole(s, u, late, s');
    M.ThrowInHoleExact(s.srcMap, Located(s, u), u.textHole, Generated(s, u).top + 1);
  }

  lemma CompileThrowsKeepsMap(s: System, u: Unit, late: bool)
    requires Inv(s) && MapOk(s) && CanCompile(s, u, Threw) && !Dangles(s, Compile(u, Threw))
    ensures MapOk(CompileThrows(s, u, late))
  {
    var s' := CompileThrows(s, u, late);
    if InHole(u) {
      ThrowsInHoleMap(s, u, late, s');
      HoleFacts(s, u, Threw);
      SameLive(s.srcMap, s.textOwn, s'.textOwn);
    } else {
      ThrowsAtTopMap(s, u, late, s');
    }
  }

  lemma SameLive(m: seq<Entry>, own: seq<Owner>, own': seq<Owner>)
    requires M.MapInv(m, own) && |own'| == |own|
    requires forall w :: 0 <= w < |own| && own[w].Of? ==> own'[w] == own[w]
    ensures M.MapInv(m, own')
  {
  }

  /** Every step that leaves no location dangling keeps the source map right. */
  lemma StepKeepsMap(s: System, st: Step)
    requires Inv(s) && MapOk(s) && Enabled(s, st) && !Dangles(s, st)
    ensures MapOk(Next(s, st))
  {
    match st
    case Compile(u, Ended) => CompileEndsKeepsMap(s, u);
    case Compile(u, Threw) => CompileThrowsKeepsMap(s, u, false);
    case Compile(u, ThrewLate) => CompileThrowsKeepsMap(s, u, true);
    case Confine(k) =>
    case Release(k) => ReleaseKeepsMap(s, k);
    case Discard(k) => ReleaseKeepsMap(s, k);
    case RetryDead => RetryKeepsMap(s, 0);
    case EnterCond =>
    case LeaveCond =>
  }

  // ---------- runs ----------

  /** The states of a run: each the next of the one before, by an enabled step. */
  ghost predicate IsRun(states: seq<System>, steps: seq<Step>) {
    && |states| == |steps| + 1
    && forall i :: 0 <= i < |steps| ==>
      Wf(states[i]) && Enabled(states[i], steps[i]) && states[i + 1] == Next(states[i], steps[i])
  }

  /** A fresh machine: word 0 reserved, the program's own data in place. */
  ghost predicate Initial(s: System) {
    && s.text.limit == 0 && s.text.top == 0 && |s.text.words| > 0 && s.text.holes == [] && s.srcMap == []
    && s.data.ptr == |s.dataOwn| && s.data.holes == []
    && (forall w :: 0 <= w < |s.dataOwn| ==> s.dataOwn[w] == Kept)
    && s.textOwn == [Kept] && s.marks == [] && s.textRegs == [] && s.dataRegs == [] && s.dead == []
  }

  lemma InitialInv(s: System)
    requires Initial(s)
    ensures Inv(s)
  {
    assert forall w :: !Free([], w);
  }

  /** The invariant holds in every state of every run. */
  lemma {:induction false} RunKeeps(states: seq<System>, steps: seq<Step>, i: nat)
    requires IsRun(states, steps) && Initial(states[0]) && i < |states|
    ensures Inv(states[i])
  {
    if i == 0 {
      InitialInv(states[0]);
    } else {
      RunKeeps(states, steps, i - 1);
      StepKeeps(states[i - 1], steps[i - 1]);
      assert states[i - 1 + 1] == states[i];
    }
  }

  /** So does the source map's half, as long as no compile leaves a location dangling. */
  lemma {:induction false} RunKeepsMap(states: seq<System>, steps: seq<Step>, i: nat)
    requires IsRun(states, steps) && Initial(states[0]) && i < |states|
    requires forall j :: 0 <= j < i ==> !Dangling(states[j], steps[j])
    ensures Inv(states[i]) && MapOk(states[i])
  {
    RunKeeps(states, steps, i);
    if i > 0 {
      RunKeepsMap(states, steps, i - 1);
      assert !Dangling(states[i - 1], steps[i - 1]);
      StepKeepsMap(states[i - 1], steps[i - 1]);
      assert states[i - 1 + 1] == states[i];
    }
  }

  /** Word w belongs to the finished, unreleased compile k. */
  ghost predicate LiveWord(s: System, k: nat, w: int)
    requires k < |s.marks|
  {
    !s.marks[k].text.textDone && s.marks[k].text.textStart < w <= s.marks[k].text.textEnd
  }

  /** What the invariant says without its record of owners: a word of 1..top is
      free, or belongs to exactly one compile, or was lost by a late throw; free
      words hold the filler; the words of a compile lie in 1..top. */
  lemma WordsSplit(s: System, w: int)
    requires Inv(s)
    ensures Free(s.text.holes, w) ==> 0 < w <= s.text.top && s.text.words[w] == T.Filler
    ensures forall k :: 0 <= k < |s.marks| && LiveWord(s, k, w) ==> 0 < w <= s.text.top && !Free(s.text.holes, w)
    ensures forall k, j :: 0 <= k < |s.marks| && 0 <= j < |s.marks| && LiveWord(s, k, w) && LiveWord(s, j, w) ==> k == j
    ensures 0 < w <= s.text.top && !Free(s.text.holes, w) && s.textOwn[w] != LostCell ==>
              exists k :: 0 <= k < |s.marks| && LiveWord(s, k, w)
  {
    forall k | 0 <= k < |s.marks| ensures LiveWord(s, k, w) <==> In(s.textRegs[k], w) {}
  }

  ghost predicate NoneLost(s: System) {
    forall w :: 0 <= w < |s.textOwn| ==> s.textOwn[w] != LostCell
  }

  lemma {:induction false} RetryLosesNone(s: System, i: nat)
    requires Inv(s) && NoneLost(s)
    ensures NoneLost(Retry(s, i))
    decreases |s.dead| - i
  {
    if i < |s.dead| {
      var (s1, rc) := ReleaseStep(s, s.dead[i]);
      ReleaseKeeps(s, s.dead[i]);
      if rc == 0 {
        RetryLosesNone(s1, i + 1);
      } else {
        RetryLosesNone(s1.(dead := s1.dead[..i] + s1.dead[i + 1..]), i);
      }
    }
  }

  lemma ThrowLosesNone(s: System, u: Unit)
    requires Inv(s) && CanCompile(s, u, Threw) && NoneLost(s)
    ensures NoneLost(CompileThrows(s, u, false))
  {
    var s' := CompileThrows(s, u, false);
    assert s'.textOwn == s.textOwn || s'.textOwn == Prefix(s.textOwn, s'.text.top + 1);
  }

  lemma EndLosesNone(s: System, u: Unit)
    requires Inv(s) && CanCompile(s, u, Ended) && NoneLost(s)
    ensures NoneLost(CompileEnds(s, u))
  {
  }

  /** Words are lost only by a compile that throws after leaving its hole. */
  lemma StepLosesNone(s: System, st: Step)
    requires Inv(s) && Enabled(s, st) && NoneLost(s)
    requires st.Compile? ==> st.o != ThrewLate
    ensures NoneLost(Next(s, st))
  {
    match st
    case Compile(u, Ended) => EndLosesNone(s, u);
    case Compile(u, Threw) => ThrowLosesNone(s, u);
    case RetryDead => RetryLosesNone(s, 0);
    case Compile(u, ThrewLate) =>
    case Confine(k) =>
    case Release(k) =>
    case Discard(k) =>
    case EnterCond =>
    case LeaveCond =>
  }

  /** Without one, 1..top splits exactly into holes and live compiles in every
      state of the run. */
  lemma {:induction false} RunSplits(states: seq<System>, steps: seq<Step>, i: nat)
    requires IsRun(states, steps) && Initial(states[0]) && i < |states|
    requires forall j :: 0 <= j < i && steps[j].Compile? ==> steps[j].o != ThrewLate
    ensures Inv(states[i]) && NoneLost(states[i])
    ensures forall w :: 0 < w <= states[i].text.top ==>
      (Free(states[i].text.holes, w) <==> forall k :: 0 <= k < |states[i].marks| ==> !LiveWord(states[i], k, w))
  {
    RunKeeps(states, steps, i);
    if i > 0 {
      RunSplits(states, steps, i - 1);
      StepLosesNone(states[i - 1], steps[i - 1]);
      assert states[i - 1 + 1] == states[i];
    }
    var s := states[i];
    forall w | 0 < w <= s.text.top
      ensures Free(s.text.holes, w) <==> forall k :: 0 <= k < |s.marks| ==> !LiveWord(s, k, w)
    {
      WordsSplit(s, w);
    }
  }

  // ---------- no word is freed twice ----------

  ghost predicate TextDone(s: System, k: nat) {
    k < |s.marks| && s.marks[k].text.textDone
  }

  lemma ReleaseKeepsDone(s: System, j: nat, k: nat)
    requires Inv(s) && j < |s.marks| && TextDone(s, k)
    ensures Inv(ReleaseStep(s, j).0) && TextDone(ReleaseStep(s, j).0, k) && ReleaseStep(s, j).0.dead == s.dead
  {
    ReleaseKeeps(s, j);
  }

  lemma {:induction false} RetryKeepsDone(s: System, i: nat, k: nat)
    requires Inv(s) && TextDone(s, k)
    ensures TextDone(Retry(s, i), k)
    decreases |s.dead| - i
  {
    if i < |s.dead| {
      var (s1, rc) := ReleaseStep(s, s.dead[i]);
      ReleaseKeepsDone(s, s.dead[i], k);
      if rc == 0 {
        RetryKeepsDone(s1, i + 1, k);
      } else {
        RetryKeepsDone(s1.(dead := s1.dead[..i] + s1.dead[i + 1..]), i, k);
      }
    }
  }

  lemma StepKeepsDone(s: System, st: Step, k: nat)
    requires Inv(s) && Enabled(s, st) && TextDone(s, k)
    ensures TextDone(Next(s, st), k)
  {
    match st
    case RetryDead => RetryKeepsDone(s, 0, k);
    case Release(j) => ReleaseKeepsDone(s, j, k);
    case Discard(j) => ReleaseKeepsDone(s, j, k);
    case Compile(u, o) =>
    case Confine(j) =>
    case EnterCond =>
    case LeaveCond =>
  }

  /** Once the words of compile k went back they are nobody's of k again: from then on
      its mark stays done and owns nothing, and releasing it changes neither the text nor
      the source map, whatever happened in between. */
  lemma {:induction false} FreedOnce(states: seq<System>, steps: seq<Step>, i: nat, j: nat, k: nat)
    requires IsRun(states, steps) && Initial(states[0]) && i <= j < |states| && TextDone(states[i], k)
    ensures TextDone(states[j], k) && Inv(states[j]) && states[j].textRegs[k] == Hole(0, 0)
    ensures ReleaseStep(states[j], k).0.text == states[j].text
    ensures ReleaseStep(states[j], k).0.srcMap == states[j].srcMap
    decreases j - i
  {
    RunKeeps(states, steps, j);
    if i < j {
      FreedOnce(states, steps, i, j - 1, k);
      StepKeepsDone(states[j - 1], steps[j - 1], k);
      assert states[j - 1 + 1] == states[j];
    }
  }

  /** No data hole touches data_ptr, in any state of any run. */
  lemma NoDataHoleAtTop(states: seq<System>, steps: seq<Step>, i: nat, h: nat)
    requires IsRun(states, steps) && Initial(states[0]) && i < |states| && h < |states[i].data.holes|
    ensures 0 <= states[i].data.holes[h].start < states[i].data.holes[h].end < states[i].data.ptr
  {
    RunKeeps(states, steps, i);
    D.NoHoleAtTop(states[i].data, states[i].dataOwn, states[i].dataRegs, h);
  }
}
