/** A run that leads debugger_move_into_hole (src/debugger.c:1771-1804) to a hole its own
    release takes away: seven steps from a fresh machine. */
module CodeMoves {
  import opened Holes
  import opened Ownership
  import opened CodeRuns
  import T = TextSpace
  import D = DataSpace

  /** One function of one word, at the top or in hole x. */
  function OneWord(x: Hole, v: int): Unit {
    Unit([], [T.Word(v)], 1, false, x, false, Hole(0, 0))
  }

  const Nowhere: Hole := Hole(0, 0)

  /** s' differs from s in its text and in one mark more. */
  ghost predicate Adds(s: System, s': System, t: T.Text, m: T.Mark) {
    && s'.text == t && s'.condDepth == s.condDepth && s'.dead == s.dead
    && |s'.marks| == |s.marks| + 1 && s'.marks[|s.marks|].text == m
    && forall i :: 0 <= i < |s.marks| ==> s'.marks[i] == s.marks[i]
  }

  lemma EmitOne(t: T.Text, v: int)
    requires 0 <= t.top && !T.Full(t)
    ensures T.EmitAll(t, [T.Word(v)]) == (t.(words := t.words[t.top + 1 := v], top := t.top + 1), true)
  {
    assert [T.Word(v)][1..] == [];
  }

  lemma CompileAtTop(s: System, v: int)
    requires Inv(s) && s.text.top + 1 < |s.text.words|
    ensures CanCompile(s, OneWord(Nowhere, v), Ended)
    ensures var t := s.text;
      Adds(s, CompileEnds(s, OneWord(Nowhere, v)), t.(words := t.words[t.top + 1 := v], top := t.top + 1),
           T.Mark(true, false, 1, false, false, t.top, t.top + 1, false, 0, 0, t.top))
  {
    EmitOne(s.text, v);
  }

  lemma CompileInHole(s: System, x: Hole, v: int)
    requires Inv(s) && Listed(s.text.holes, x) && 0 < x.start && x.end == x.start + 1
    ensures CanCompile(s, OneWord(x, v), Ended)
    ensures var t := s.text;
      && x.start < |t.words|
      && Adds(s, CompileEnds(s, OneWord(x, v)),
              t.(words := t.words[x.start := v], holes := Carve(t.holes, x.start, x.end)),
              T.Mark(true, false, 1, false, true, x.start - 1, x.start, false, x.start, x.end, t.top))
  {
    ListedCells(s.text.holes, s.textOwn, x);
    EmitOne(T.InHole(s.text, x), v);
  }

  lemma Releases(s: System, k: nat)
    requires Inv(s) && k < |s.marks| && s.condDepth == 0 && s.dead == []
    requires !s.marks[k].text.textDone && !T.MustStay(s.marks[k].text)
    ensures Enabled(s, Release(k))
    ensures var s' := Next(s, Release(k));
      && s'.text == T.GiveBack(s.text, s.marks[k].text) && s'.condDepth == 0 && s'.dead == []
      && |s'.marks| == |s.marks| && forall i :: 0 <= i < |s.marks| && i != k ==> s'.marks[i] == s.marks[i]
  {
  }

  /** An idle machine of at least three words, with this top and these holes. */
  ghost predicate Idle(s: System, top: int, holes: seq<Hole>, marks: nat) {
    && Inv(s) && s.condDepth == 0 && s.dead == [] && |s.text.words| >= 3
    && s.text.top == top && s.text.holes == holes && |s.marks| == marks
  }

  /** Mark k is of the finished compile of word w, still held. */
  ghost predicate Wrote(s: System, k: nat, w: int, inHole: bool) {
    && k < |s.marks|
    && var m := s.marks[k].text;
       m.ended && !m.textDone && m.newFns == 1 && !m.labelsGrew && m.inHole == inHole
         && m.textStart + 1 == w == m.textEnd
  }

  lemma AtTop(s: System, v: int, top: int, holes: seq<Hole>, n: nat) returns (s': System)
    requires Idle(s, top, holes, n) && top < 2
    ensures Enabled(s, Compile(OneWord(Nowhere, v), Ended)) && s' == Next(s, Compile(OneWord(Nowhere, v), Ended))
    ensures Idle(s', top + 1, holes, n + 1) && Wrote(s', n, top + 1, false)
    ensures forall i :: 0 <= i < n ==> s'.marks[i] == s.marks[i]
  {
    CompileAtTop(s, v);
    var st := Compile(OneWord(Nowhere, v), Ended);
    StepKeeps(s, st);
    s' := Next(s, st);
  }

  /** The only hole, one word long, filled. */
  lemma IntoHole(s: System, v: int, top: int, n: nat) returns (s': System)
    requires Idle(s, top, [Hole(1, 2)], n)
    ensures Enabled(s, Compile(OneWord(Hole(1, 2), v), Ended)) && s' == Next(s, Compile(OneWord(Hole(1, 2), v), Ended))
    ensures Idle(s', top, [], n + 1) && Wrote(s', n, 1, true)
    ensures forall i :: 0 <= i < n ==> s'.marks[i] == s.marks[i]
  {
    assert s.text.holes[0] == Hole(1, 2);
    assert Listed(s.text.holes, Hole(1, 2));
    CompileInHole(s, Hole(1, 2), v);
    assert Carve([Hole(1, 2)], 1, 2) == [];
    var st := Compile(OneWord(Hole(1, 2), v), Ended);
    StepKeeps(s, st);
    s' := Next(s, st);
  }

  /** Word 1 given back below the top, or out of a hole: it becomes the only hole. */
  lemma FreeWord1(s: System, k: nat, top: int, n: nat, inHole: bool) returns (s': System)
    requires Idle(s, top, [], n) && Wrote(s, k, 1, inHole) && (inHole || top != 1)
    ensures Enabled(s, Release(k)) && s' == Next(s, Release(k)) && Idle(s', top, [Hole(1, 2)], n)
    ensures forall i :: 0 <= i < n && i != k ==> s'.marks[i] == s.marks[i]
  {
    Releases(s, k);
    StepKeeps(s, Release(k));
    s' := Next(s, Release(k));
    assert Insert([], 1, 2) == [Hole(1, 2)];
  }

  /** Word 2 given back at the top, no hole below it. */
  lemma FreeWord2(s: System, k: nat, n: nat) returns (s': System)
    requires Idle(s, 2, [], n) && Wrote(s, k, 2, false)
    ensures Enabled(s, Release(k)) && s' == Next(s, Release(k)) && Idle(s', 1, [], n)
    ensures forall i :: 0 <= i < n && i != k ==> s'.marks[i] == s.marks[i]
  {
    Releases(s, k);
    StepKeeps(s, Release(k));
    s' := Next(s, Release(k));
    assert Absorb([], 2) == ([], 2);
  }

  lemma RunMore(states: seq<System>, steps: seq<Step>, s: System, st: Step, s': System)
    requires IsRun(states, steps) && s == states[|steps|] && Wf(s) && Enabled(s, st) && s' == Next(s, st)
    ensures IsRun(states + [s'], steps + [st]) && (states + [s'])[|steps| + 1] == s'
    ensures (states + [s'])[0] == states[0]
  {
    var more, sts := states + [s'], steps + [st];
    forall i | 0 <= i < |sts|
      ensures Wf(more[i]) && Enabled(more[i], sts[i]) && more[i + 1] == Next(more[i], sts[i])
    {
      if i < |steps| { assert more[i] == states[i] && sts[i] == steps[i] && more[i + 1] == states[i + 1]; }
    }
  }

  /** From a fresh machine: compile A and B, release A, compile C into A's word, release B
      and C, compile D. The one hole, which holds D exactly, then ends right where D
      begins. */
  lemma SevenSteps(s0: System, v: int) returns (states: seq<System>, steps: seq<Step>)
    requires Initial(s0) && s0.condDepth == 0 && |s0.text.words| >= 3
    ensures IsRun(states, steps) && states[0] == s0 && |steps| == 7
    ensures Idle(states[7], 2, [Hole(1, 2)], 4) && Wrote(states[7], 3, 2, false)
  {
    var s2: System, s7: System;
    states, steps, s2 := FirstTwo(s0, v);
    var into := Compile(OneWord(Hole(1, 2), v), Ended);
    var s3 := FreeWord1(s2, 0, 2, 2, false);
    RunMore(states, steps, s2, Release(0), s3);
    states, steps := states + [s3], steps + [Release(0)];
    var s4 := IntoHole(s3, v, 2, 2);
    RunMore(states, steps, s3, into, s4);
    states, steps := states + [s4], steps + [into];
    states, steps, s7 := LastThree(states, steps, s4, v);
  }

  lemma FirstTwo(s0: System, v: int) returns (states: seq<System>, steps: seq<Step>, s2: System)
    requires Initial(s0) && s0.condDepth == 0 && |s0.text.words| >= 3
    ensures IsRun(states, steps) && states[0] == s0 && |steps| == 2 && states[2] == s2
    ensures Idle(s2, 2, [], 2) && Wrote(s2, 0, 1, false) && Wrote(s2, 1, 2, false)
  {
    InitialInv(s0);
    var top := Compile(OneWord(Nowhere, v), Ended);
    states, steps := [s0], [];
    var s1 := AtTop(s0, v, 0, [], 0);
    RunMore(states, steps, s0, top, s1);
    states, steps := states + [s1], steps + [top];
    s2 := AtTop(s1, v, 1, [], 1);
    RunMore(states, steps, s1, top, s2);
    states, steps := states + [s2], steps + [top];
  }

  lemma LastThree(before: seq<System>, done: seq<Step>, s4: System, v: int)
    returns (states: seq<System>, steps: seq<Step>, s7: System)
    requires IsRun(before, done) && |done| == 4 && before[4] == s4
    requires Idle(s4, 2, [], 3) && Wrote(s4, 1, 2, false) && Wrote(s4, 2, 1, true)
    ensures IsRun(states, steps) && states[0] == before[0] && |steps| == 7 && states[7] == s7
    ensures Idle(s7, 2, [Hole(1, 2)], 4) && Wrote(s7, 3, 2, false)
  {
    var top := Compile(OneWord(Nowhere, v), Ended);
    states, steps := before, done;
    var s5 := FreeWord2(s4, 1, 3);
    RunMore(states, steps, s4, Release(1), s5);
    states, steps := states + [s5], steps + [Release(1)];
    var s6 := FreeWord1(s5, 2, 1, 3, true);
    RunMore(states, steps, s5, Release(2), s6);
    states, steps := states + [s6], steps + [Release(2)];
    s7 := AtTop(s6, v, 1, [Hole(1, 2)], 3);
    RunMore(states, steps, s6, top, s7);
    states, steps := states + [s7], steps + [top];
  }

  /** There the wrapper D is found a hole it fits and is released, which absorbs the hole. */
  lemma HoleGone(s: System, gone: T.Text)
    requires Idle(s, 2, [Hole(1, 2)], 4) && Wrote(s, 3, 2, false) && gone == T.GiveBack(s.text, s.marks[3].text)
    ensures gone.holes == [] && gone.top == 0 && |gone.words| == |s.text.words|
  {
    assert Absorb([Hole(1, 2)], 2) == ([], 1) by { assert [Hole(1, 2)][..0] == []; }
  }

  /** Compiled into it all the same, D ends up above the top, where no split of the words
      owns it. */
  lemma MoveLosesWrapper(s: System, v: int, gone: T.Text, u: T.Text)
    requires Idle(s, 2, [Hole(1, 2)], 4) && Wrote(s, 3, 2, false) && gone == T.GiveBack(s.text, s.marks[3].text)
    requires 0 <= gone.top && u == T.EmitAll(T.Begin(gone, 1, 2, 1).0, [T.Word(v)]).0
    ensures var (t2, m2) := T.Finish(u, T.Begin(gone, 1, 2, 1).1, false);
      && T.Holds(m2, Hole(1, 2)) && t2.top == 0
      && forall own, regs, i :: 0 <= i < |regs| && regs[i] == Hole(1, 2) ==> !T.TextInv(t2, own, regs)
  {
    var x := Hole(1, 2);
    HoleGone(s, gone);
    assert s.text.holes[0] == x;
    EmitOne(T.InHole(gone, x), v);
    T.EmitAllEmits(T.InHole(gone, x), [T.Word(v)]);
    T.MoveIntoAbsorbedHole(s.text, s.textOwn, s.textRegs, 3, s.marks[3].text, x, u);
  }
}
