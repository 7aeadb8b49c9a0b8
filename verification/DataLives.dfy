/** How long data lives (src/codegen_func.c:1169-1227, 1351-1368): globals that may be
    reached from elsewhere are never given up, whatever becomes of their wrapper's code;
    confined ones go with it. */
module DataLives {
  import opened Holes
  import opened Ownership
  import opened CodeRuns
  import opened CodeLives
  import D = DataSpace

  // ---------- one operation ----------

  /** A placement takes free bytes only. */
  lemma PlaceSpares(d: D.Data, own: seq<Owner>, regs: seq<Hole>, vars: seq<D.Var>, want: bool, x: Hole, b: int)
    requires D.DataInv(d, own, regs) && D.Aligned(vars)
    requires want ==> Listed(d.holes, x) && 0 <= x.start
    requires 0 <= b < |own| && own[b] != FreeCell
    ensures var (d', m) := D.Place(d, vars, want, x); var own' := D.PlacedOwn(own, d', m, |regs|);
      b < |own'| && own'[b] == own[b]
  {
    D.PlaceKeeps(d, own, regs, vars, want, x);
    if want { ListedCells(d.holes, own, x); }
    assert want && own[b] != FreeCell ==> !In(x, b);
  }

  /** A release gives up bytes of its own compile only. */
  lemma ReleaseSparesData(d: D.Data, own: seq<Owner>, regs: seq<Hole>, k: nat, m: D.Mark, b: int)
    requires D.DataInv(d, own, regs) && k < |regs|
    requires !m.dataDone ==> regs[k] == D.Region(d, m) && 0 <= m.dataStart <= D.ReleaseEnd(d, m)
    requires 0 <= b < |own| && own[b] != FreeCell && own[b] != Of(k)
    ensures var own' := D.ReleasedOwn(own, d, m); b < |own'| && own'[b] == own[b]
  {
    RegionCells(own, regs, k);
    var end := D.ReleaseEnd(d, m);
    if !m.dataDone && !D.MustStay(m) && end != m.dataStart && d.ptr == end {
      D.ReleaseTop(d, own, regs, k);
      TopSpares(d, own, regs, k, b);
    } else {
      assert !m.dataDone ==> !In(regs[k], b);
    }
  }

  lemma TopSpares(d: D.Data, own: seq<Owner>, regs: seq<Hole>, k: nat, b: int)
    requires D.DataInv(d, own, regs) && k < |regs| && 0 <= regs[k].start < regs[k].end == d.ptr
    requires 0 <= b < |own| && own[b] != FreeCell && own[b] != Of(k)
    ensures b < Absorb(d.holes, regs[k].start).1
  {
    var r := regs[k];
    RegionCells(own, regs, k);
    assert forall w :: r.start <= w < |own| ==> In(r, w);
    assert b < r.start;
    AbsorbSinks(d.holes, r.start);
  }

  // ---------- data that stays ----------

  /** Byte b belongs to compile k, or is kept for good. */
  ghost predicate Held(s: System, k: nat, b: int) {
    0 <= b < |s.dataOwn| && (s.dataOwn[b] == Of(k) || s.dataOwn[b] == Kept)
  }

  /** Compile k has globals that were not confined: they lie in r and are held. */
  ghost predicate HoldsData(s: System, k: nat, r: Hole) {
    && k < |s.marks| && k < |s.dataRegs|
    && var m := s.marks[k].data;
       && m.ended && m.newVars > 0 && !m.confined && (m.dataDone || s.dataRegs[k] == r)
       && forall b :: r.start <= b < r.end ==> Held(s, k, b)
  }

  lemma HeldIsNotFree(s: System, k: nat, b: int)
    requires Inv(s) && Held(s, k, b)
    ensures b < s.data.ptr && !Free(s.data.holes, b)
  {
  }

  lemma ReleaseHolds(s: System, j: nat, k: nat, r: Hole)
    requires Inv(s) && j < |s.marks| && HoldsData(s, k, r)
    ensures HoldsData(ReleaseStep(s, j).0, k, r)
  {
    var s' := ReleaseStep(s, j).0;
    if s.condDepth == 0 {
      var m := s.marks[j].data;
      forall b | r.start <= b < r.end ensures Held(s', k, b) {
        assert Held(s, k, b);
        if s.dataOwn[b] != Of(j) {
          ReleaseSparesData(s.data, s.dataOwn, s.dataRegs, j, m, b);
        } else {
          RegionCells(s.dataOwn, s.dataRegs, j);
        }
      }
    }
  }

  lemma {:induction false} RetryHolds(s: System, i: nat, k: nat, r: Hole)
    requires Inv(s) && HoldsData(s, k, r)
    ensures HoldsData(Retry(s, i), k, r)
    decreases |s.dead| - i
  {
    if i < |s.dead| {
      RetryTurns(s, i);
      ReleaseHolds(s, s.dead[i], k, r);
      Untold(ReleaseStep(s, s.dead[i]).0, Retried(s, i), k, r);
      RetryHolds(Retried(s, i), if s.condDepth > 0 then i + 1 else i, k, r);
    }
  }

  lemma EndHolds(s: System, u: Unit, k: nat, r: Hole)
    requires Inv(s) && CanCompile(s, u, Ended) && HoldsData(s, k, r)
    ensures HoldsData(CompileEnds(s, u), k, r)
  {
    var s' := CompileEnds(s, u);
    forall b | r.start <= b < r.end ensures Held(s', k, b) {
      assert Held(s, k, b);
      PlaceSpares(s.data, s.dataOwn, s.dataRegs, u.vars, u.wantData, u.dataHole, b);
    }
  }

  lemma ThrowHolds(s: System, u: Unit, late: bool, k: nat, r: Hole)
    requires Inv(s) && CanCompile(s, u, Threw) && HoldsData(s, k, r)
    ensures HoldsData(CompileThrows(s, u, late), k, r)
  {
    var s' := CompileThrows(s, u, late);
    var (d, dm) := D.Place(s.data, u.vars, u.wantData, u.dataHole);
    D.PlaceKeeps(s.data, s.dataOwn, s.dataRegs, u.vars, u.wantData, u.dataHole);
    forall b | r.start <= b < r.end ensures Held(s', k, b) {
      assert Held(s, k, b);
      PlaceSpares(s.data, s.dataOwn, s.dataRegs, u.vars, u.wantData, u.dataHole, b);
      ReleaseSparesData(d, D.PlacedOwn(s.dataOwn, d, dm, |s.marks|), s.dataRegs + [D.Region(d, dm)], |s.marks|, dm, b);
    }
  }

  lemma StepHolds(s: System, st: Step, k: nat, r: Hole)
    requires Inv(s) && Enabled(s, st) && HoldsData(s, k, r) && st != Confine(k)
    ensures HoldsData(Next(s, st), k, r)
  {
    match st
    case Compile(u, Ended) => EndHolds(s, u, k, r);
    case Compile(u, Threw) => ThrowHolds(s, u, false, k, r);
    case Compile(u, ThrewLate) => ThrowHolds(s, u, true, k, r);
    case Release(j) => ReleaseHolds(s, j, k, r);
    case Discard(j) =>
      ReleaseHolds(s, j, k, r);
      Untold(ReleaseStep(s, j).0, Next(s, st), k, r);
    case RetryDead => RetryHolds(s, 0, k, r);
    case Confine(j) => Untold(s, Next(s, st), k, r);
    case EnterCond => Untold(s, Next(s, st), k, r);
    case LeaveCond => Untold(s, Next(s, st), k, r);
  }

  lemma Untold(s: System, s': System, k: nat, r: Hole)
    requires HoldsData(s, k, r) && s'.dataOwn == s.dataOwn && s'.dataRegs == s.dataRegs
    requires k < |s'.marks| && s'.marks[k].data == s.marks[k].data
    ensures HoldsData(s', k, r)
  {
    forall b | r.start <= b < r.end ensures Held(s', k, b) { assert Held(s, k, b); }
  }

  lemma FirstHeld(states: seq<System>, steps: seq<Step>, i: nat, u: Unit, k: nat)
    requires IsRun(states, steps) && Initial(states[0]) && CompiledAt(states, steps, i, u, k) && i + 1 < |states|
    requires u.vars != []
    ensures k < |states[i + 1].dataRegs| && HoldsData(states[i + 1], k, states[i + 1].dataRegs[k])
  {
    LastStep(states, steps, i + 1);
    StartsHeld(states[i], u);
  }

  lemma {:induction false} DataHeld(states: seq<System>, steps: seq<Step>, i: nat, j: nat, u: Unit, k: nat, r: Hole)
    requires IsRun(states, steps) && Initial(states[0]) && CompiledAt(states, steps, i, u, k) && i < j < |states|
    requires HoldsData(states[i + 1], k, r) && !ConfinedIn(steps, i, j, k)
    ensures HoldsData(states[j], k, r)
    decreases j
  {
    if i < j - 1 {
      LastStep(states, steps, j);
      ConfinedMore(steps, i, j - 1, k);
      DataHeld(states, steps, i, j - 1, u, k, r);
      StepHolds(states[j - 1], steps[j - 1], k, r);
    }
  }

  /** Globals of a compile that was not confined are below data_ptr and in no hole for
      ever after, even when the words of their wrapper went back. */
  lemma DataStays(states: seq<System>, steps: seq<Step>, i: nat, j: nat, u: Unit, k: nat, b: int)
    requires IsRun(states, steps) && Initial(states[0]) && CompiledAt(states, steps, i, u, k) && i < j < |states|
    requires u.vars != [] && !ConfinedIn(steps, i, j, k)
    requires Placement(states, i, u).start <= b < Placement(states, i, u).end
    ensures b < states[j].data.ptr && !Free(states[j].data.holes, b)
  {
    LastStep(states, steps, i + 1);
    LastStep(states, steps, j);
    FirstHeld(states, steps, i, u, k);
    DataHeld(states, steps, i, j, u, k, states[i + 1].dataRegs[k]);
    assert Held(states[j], k, b);
    HeldIsNotFree(states[j], k, b);
  }

  /** Where the globals of u went, compiled in state i. */
  function Placement(states: seq<System>, i: nat, u: Unit): Hole
    requires i < |states| && D.Aligned(u.vars) && 0 <= states[i].data.ptr && (u.wantData ==> 0 <= u.dataHole.start)
  {
    var m := D.Place(states[i].data, u.vars, u.wantData, u.dataHole).1;
    Hole(m.dataStart, D.End(u.vars, m.dataStart))
  }

  lemma StartsHeld(s: System, u: Unit)
    requires Inv(s) && CanCompile(s, u, Ended) && u.vars != []
    ensures HoldsData(CompileEnds(s, u), |s.marks|, CompileEnds(s, u).dataRegs[|s.marks|])
  {
    var s', k := CompileEnds(s, u), |s.marks|;
    CompileEndsKeeps(s, u);
    RegionCells(s'.dataOwn, s'.dataRegs, k);
    forall b | s'.dataRegs[k].start <= b < s'.dataRegs[k].end ensures Held(s', k, b) {
      assert In(s'.dataRegs[k], b);
    }
  }

  // ---------- data that goes ----------

  /** The data of a confined compile goes back with the first release while nothing runs. */
  lemma ConfinedDataGoes(s: System, k: nat, b: int)
    requires Inv(s) && k < |s.marks| && s.condDepth == 0
    requires var m := s.marks[k].data; m.ended && m.confined && !m.dataDone && m.dataStart <= b < m.dataEnd
    ensures var s' := ReleaseStep(s, k).0;
      && s'.marks[k].data.dataDone && (b >= s'.data.ptr || Free(s'.data.holes, b))
  {
    var s', m := ReleaseStep(s, k).0, s.marks[k].data;
    ReleaseKeeps(s, k);
    assert DataAgrees(m, s.dataRegs[k]);
    RegionCells(s.dataOwn, s.dataRegs, k);
    assert In(s.dataRegs[k], b);
    if s.data.ptr != m.dataEnd {
      assert s'.dataOwn[b] == FreeCell;
    } else {
      AbsorbSinks(s.data.holes, m.dataStart);
    }
  }

  /** Confining a mark confines its data too. */
  lemma {:induction false} DataMark(states: seq<System>, steps: seq<Step>, i: nat, j: nat, u: Unit, k: nat)
    requires IsRun(states, steps) && Initial(states[0]) && CompiledAt(states, steps, i, u, k) && i < j < |states|
    ensures k < |states[j].marks|
    ensures var m := states[j].marks[k].data;
      m.ended && m.newVars == |u.vars| && (m.confined <==> ConfinedIn(steps, i, j, k))
    decreases j
  {
    LastStep(states, steps, j);
    if i < j - 1 {
      DataMark(states, steps, i, j - 1, u, k);
      StepDataMark(states[j - 1], steps[j - 1], k);
      ConfinedMore(steps, i, j - 1, k);
    }
  }

  ghost predicate SameData(m: D.Mark, m': D.Mark, confined: bool) {
    m' == m.(dataDone := m'.dataDone, confined := m.confined || confined)
  }

  lemma TurnDataMark(s: System, i: nat, k: nat)
    requires Inv(s) && k < |s.marks| && i < |s.dead|
    ensures k < |Retried(s, i).marks| && SameData(s.marks[k].data, Retried(s, i).marks[k].data, false)
  {
  }

  lemma {:induction false} RetryDataMark(s: System, i: nat, k: nat)
    requires Inv(s) && k < |s.marks|
    ensures k < |Retry(s, i).marks| && SameData(s.marks[k].data, Retry(s, i).marks[k].data, false)
    decreases |s.dead| - i
  {
    if i < |s.dead| {
      RetryTurns(s, i);
      TurnDataMark(s, i, k);
      RetryDataMark(Retried(s, i), if s.condDepth > 0 then i + 1 else i, k);
    }
  }

  lemma StepDataMark(s: System, st: Step, k: nat)
    requires Inv(s) && Enabled(s, st) && k < |s.marks|
    ensures k < |Next(s, st).marks| && SameData(s.marks[k].data, Next(s, st).marks[k].data, st == Confine(k))
  {
    match st
    case RetryDead => RetryDataMark(s, 0, k);
    case Release(j) =>
    case Discard(j) =>
    case Compile(_, _) =>
    case Confine(j) =>
    case EnterCond =>
    case LeaveCond =>
  }

  /** So confined globals are given up by the first release while nothing runs. */
  lemma DataGoes(states: seq<System>, steps: seq<Step>, i: nat, j: nat, u: Unit, k: nat, b: int)
    requires IsRun(states, steps) && Initial(states[0]) && CompiledAt(states, steps, i, u, k) && i < j < |states|
    requires ConfinedIn(steps, i, j, k) && states[j].condDepth == 0
    requires k < |states[j].marks| && !states[j].marks[k].data.dataDone
    requires states[j].marks[k].data.dataStart <= b < states[j].marks[k].data.dataEnd
    ensures Inv(states[j])
    ensures var s' := ReleaseStep(states[j], k).0;
      && s'.marks[k].data.dataDone && (b >= s'.data.ptr || Free(s'.data.holes, b))
  {
    LastStep(states, steps, j);
    DataMark(states, steps, i, j, u, k);
    ConfinedDataGoes(states[j], k, b);
  }
}
