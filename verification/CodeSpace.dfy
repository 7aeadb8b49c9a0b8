/** The same operations as they run: a text segment written in place, hole lists
    and counters updated field by field (src/codegen_func.c:870-1033, 1121-1434).
    Every method is proved to compute its specification in CodeRuns. */
module CodeSpace {
  import opened Holes
  import opened Ownership
  import opened SourceMap
  import opened CodeRuns
  import T = TextSpace
  import M = TextMap
  import D = DataSpace

  /** What giving back the words of m needs of the segment. */
  ghost predicate CanGiveBack(t: T.Text, m: T.Mark) {
    var start, end := m.textStart + 1, T.ReleaseEnd(t, m) + 1;
    && 0 < start <= end <= |t.words| && 0 <= t.top < |t.words|
    && Canonical(t.holes) && Within(t.holes, 1, t.top + 1)
    && (start < end && m.ended && (m.inHole || t.top != end - 1) ==> Taken(t.holes, start, end))
    && (start < end && !m.inHole && t.top == end - 1 ==> Within(t.holes, 1, start))
  }

  lemma HolesWithin(t: T.Text, own: seq<Owner>, regs: seq<Hole>)
    requires T.TextInv(t, own, regs)
    ensures Within(t.holes, 1, t.top + 1)
  {
    forall i | 0 <= i < |t.holes| ensures 1 <= t.holes[i].start && t.holes[i].end <= t.top + 1 {
      ListedCells(t.holes, own, t.holes[i]);
      assert In(t.holes[i], t.holes[i].start);
    }
  }

  lemma IdleCanGiveBack(t: T.Text, own: seq<Owner>, regs: seq<Hole>, k: nat, m: T.Mark)
    requires T.TextInv(t, own, regs) && k < |regs| && T.Agrees(m, regs[k]) && !m.textDone && m.textStart < m.textEnd
    ensures CanGiveBack(t, m)
  {
    HolesWithin(t, own, regs);
    RegionCells(own, regs, k);
    FreedLists(t.holes, own, regs[k]);
    assert In(regs[k], m.textStart + 1) && In(regs[k], m.textEnd);
    assert own[0] == Kept;
    if t.top == m.textEnd { T.HolesBelow(t, own, regs, k, m); }
  }

  class TextSegment {
    const words: array<int>
    var top: int
    var limit: int
    var holes: seq<Hole>
    var srcMap: seq<Entry>

    constructor (capacity: nat)
      requires capacity > 0
      ensures top == 0 && limit == 0 && holes == [] && srcMap == [] && words.Length == capacity && fresh(words)
    {
      words := new int[capacity](_ => 0);
      top, limit, holes, srcMap := 0, 0, [], [];
    }

    ghost function State(): T.Text
      reads this, words
    {
      T.Text(words[..], top, limit, holes)
    }

    /** emit_word and emit_source_location, one after another until one throws. */
    method EmitItems(items: seq<T.Item>) returns (ok: bool)
      requires 0 <= top
      modifies this`top, this`srcMap, words
      ensures (State(), ok) == T.EmitAll(old(State()), items)
      ensures srcMap == old(srcMap) + M.Located(old(State()), items)
    {
      ok := true;
      ghost var done := [];
      assert srcMap == old(srcMap) + [];
      for i := 0 to |items|
        invariant ok && 0 <= top && limit == old(limit) && holes == old(holes)
        invariant T.EmitAll(State(), items[i..]) == T.EmitAll(old(State()), items)
        invariant srcMap == old(srcMap) + done
            && done + M.Located(State(), items[i..]) == M.Located(old(State()), items)
      {
        ghost var rest := items[i..];
        assert rest[1..] == items[i + 1..];
        match items[i]
        case Source(f, l) =>
          srcMap := srcMap + [Entry(top + 1, f, l)];
          done := done + [Entry(top + 1, f, l)];
        case Word(v) =>
          if (limit != 0 && top + 1 >= limit) || top + 1 >= words.Length {
            ok := false;
            break;
          }
          PutWord(v);
      }
      assert ok ==> M.Located(State(), []) == [];
      assert done + [] == done;
    }

    method PutWord(v: int)
      requires 0 <= top && !T.Full(State())
      modifies this`top, words
      ensures State() == old(State()).(words := old(words[..])[old(top) + 1 := v], top := old(top) + 1)
    {
      ghost var before := words[..];
      top := top + 1;
      words[top] := v;
      assert words[..] == before[top := v];
    }

    method Fill(a: int, b: int, v: int)
      requires 0 <= a <= b <= words.Length
      modifies words
      ensures words[..] == T.Filled(old(words[..]), a, b, v)
    {
      for i := a to b
        invariant forall j :: 0 <= j < words.Length ==> words[j] == if a <= j < i then v else old(words[j])
      {
        words[i] := v;
      }
    }

    /** absorb_text_holes. */
    method AbsorbTextHoles()
      requires Canonical(holes) && Within(holes, 1, top + 1) && 0 <= top < words.Length
      modifies this`top, this`holes, words
      ensures State() == T.AbsorbTop(old(State()))
    {
      AbsorbTakes(holes, top + 1);
      assert !Free(holes, 0);
      var h, l := AbsorbHoles(holes, top + 1);
      Fill(l, top + 1, 0);
      top, holes := l - 1, h;
    }

    /** The text half of cc_code_release once the words are to go. */
    method GiveBack(m: T.Mark)
      requires CanGiveBack(State(), m)
      modifies this, words
      ensures State() == T.GiveBack(old(State()), m)
      ensures srcMap == M.Released(old(srcMap), m.textStart + 1, T.ReleaseEnd(old(State()), m) + 1)
    {
      var start, end := m.textStart + 1, (if m.ended || m.inHole then m.textEnd else top) + 1;
      if end == start { return; }
      srcMap := ForgetRange(srcMap, start, end);
      GiveBackWords(m, start, end);
    }

    method GiveBackWords(m: T.Mark, start: int, end: int)
      requires CanGiveBack(State(), m) && start == m.textStart + 1 < end == T.ReleaseEnd(State(), m) + 1
      modifies this`top, this`holes, words
      ensures State() == T.GiveBack(old(State()), m)
    {
      if m.inHole || top != end - 1 {
        Reclaim(start, end, m.ended);
      } else {
        RollBack(start, end);
      }
    }

    method Reclaim(start: int, end: int, list: bool)
      requires 0 < start < end <= words.Length && (list ==> Canonical(holes) && Taken(holes, start, end))
      modifies this`holes, words
      ensures State() == old(State()).(words := T.Filled(old(words[..]), start, end, T.Filler),
                                       holes := if list then Insert(old(holes), start, end) else old(holes))
    {
      Fill(start, end, T.Filler);
      if list {
        holes := AddHole(holes, start, end);
      }
    }

    method RollBack(start: int, end: int)
      requires 0 < start <= end <= words.Length && Canonical(holes) && Within(holes, 1, start)
      modifies this`top, this`holes, words
      ensures State() == T.AbsorbTop(old(State()).(words := T.Filled(old(words[..]), start, end, 0), top := start - 1))
    {
      Fill(start, end, 0);
      top := start - 1;
      AbsorbTextHoles();
    }

    /** The text half of cc_code_release on an idle mark. */
    method Release(m: T.Mark, ghost own: seq<Owner>, ghost regs: seq<Hole>, ghost k: nat) returns (m': T.Mark, rc: int)
      requires T.TextInv(State(), own, regs) && k < |regs| && T.Agrees(m, regs[k])
      modifies this, words
      ensures (State(), m', rc) == T.Release(old(State()), m)
      ensures srcMap == ReleasedMap(old(srcMap), old(State()), m)
    {
      if m.textDone { return m, 1; }
      if m.ended && !m.confined && (m.newFns > 1 || m.labelsGrew) { return m, -1; }
      m', rc := m.(textDone := true), 1;
      if m.textStart < m.textEnd {
        IdleCanGiveBack(State(), own, regs, k, m);
        GiveBack(m);
      }
    }

    /** restore_top_state; saved entries of the map are older than the compile. */
    method RestoreTopState(m: T.Mark, saved: nat) returns (m': T.Mark)
      modifies this`top, this`limit, this`srcMap
      ensures (State(), m') == T.RestoreTop(old(State()), m) && srcMap == MergeTailOf(old(srcMap), saved)
    {
      m' := m.(textEnd := top);
      top, limit := m.savedTop, 0;
      srcMap := MergeTail(srcMap, saved);
    }

    /** leave_text_hole. */
    method LeaveTextHole(m: T.Mark, saved: nat) returns (m': T.Mark)
      requires Canonical(holes)
      modifies this`top, this`limit, this`srcMap, this`holes
      ensures (State(), m') == T.LeaveHole(old(State()), m) && srcMap == MergeTailOf(old(srcMap), saved)
    {
      m' := RestoreTopState(m, saved);
      holes := ShrinkHole(holes, m'.holeStart, m'.textEnd + 1);
    }

    /** cc_code_mark_begin and enter_text_hole. */
    method Begin(x: Hole, newFns: nat) returns (m: T.Mark)
      modifies this`top, this`limit
      ensures (State(), m) == T.Begin(old(State()), x.start, x.end, newFns)
    {
      m := T.Mark(false, false, newFns, false, false, top, top, false, x.start, x.end, top);
      if newFns > 0 && x.start != 0 {
        m := m.(inHole := true, textStart := x.start - 1);
        top, limit := m.textStart, x.end;
      }
    }

    /** The end of a compile that did not throw. */
    method Finish(m: T.Mark, saved: nat, labels: bool) returns (m': T.Mark)
      requires Canonical(holes)
      modifies this`top, this`limit, this`srcMap, this`holes
      ensures (State(), m') == T.Finish(old(State()), m, labels)
      ensures srcMap == if m.inHole then MergeTailOf(old(srcMap), saved) else old(srcMap)
    {
      if m.inHole {
        m' := LeaveTextHole(m, saved);
      } else {
        m' := m.(textEnd := top);
      }
      m' := m'.(ended := true, labelsGrew := labels);
    }

    /** A throw in a hole: leave it unshrunk, then release the mark at once. */
    method ThrowInHole(m: T.Mark, saved: nat) returns (m': T.Mark)
      requires m.inHole && CanThrow(State(), m)
      modifies this, words
      ensures (State(), m') == Thrown(old(State()), m)
      ensures srcMap == M.Released(MergeTailOf(old(srcMap), saved), m.textStart + 1, old(top) + 1)
    {
      m' := RestoreTopState(m, saved);
      GiveBack(m');
      m' := m'.(textDone := true);
    }

    method ThrowAtTop(m: T.Mark) returns (m': T.Mark)
      requires !m.inHole && CanThrow(State(), m)
      modifies this, words
      ensures (State(), m') == Thrown(old(State()), m)
      ensures srcMap == M.Released(old(srcMap), m.textStart + 1, old(top) + 1)
    {
      GiveBack(m);
      m' := m.(textDone := true);
    }

    /** The end of a compile, thrown or not. */
    method Conclude(m: T.Mark, saved: nat, labels: bool, ok: bool) returns (m': T.Mark)
      requires Canonical(holes) && CanThrow(State(), m)
      modifies this, words
      ensures (State(), m') == Concluded(old(State()), m, labels, ok)
      ensures srcMap == ConcludedMap(old(srcMap), saved, m, old(top), ok)
    {
      if ok {
        m' := Finish(m, saved, labels);
      } else if m.inHole {
        m' := ThrowInHole(m, saved);
      } else {
        m' := ThrowAtTop(m);
      }
    }

    /** The text of one incremental compile: at the top or in the hole x, up to its
        end or to the first throw, whose words are released at once. */
    method Compile(x: Hole, newFns: nat, items: seq<T.Item>, labels: bool, ghost own: seq<Owner>, ghost regs: seq<Hole>)
      returns (m: T.Mark, ok: bool)
      requires T.TextInv(State(), own, regs)
      requires newFns > 0 && x.start != 0 ==> Listed(holes, x)
      modifies this, words
      ensures var (t0, m0) := T.Begin(old(State()), x.start, x.end, newFns);
        0 <= t0.top && Compiled(t0, m0, items, labels, State(), m, ok)
        && srcMap == MapAfter(old(srcMap), t0, items, m0.inHole, ok)
    {
      ghost var t := State();
      HoleStarts(t, own, regs, x, newFns);
      var saved := |srcMap|;
      m := Begin(x, newFns);
      ghost var t0, m0, map0 := State(), m, srcMap;
      T.EmitAllEmits(t0, items);
      ok := EmitItems(items);
      ghost var g := State();
      ThrowCanGiveBack(t, own, regs, x, newFns, g);
      m := Conclude(m, saved, labels, ok);
      assert Compiled(t0, m0, items, labels, State(), m, ok);
      MapAfterIs(map0, t0, items, m0, ok);
    }
  }

  ghost predicate Compiled(t0: T.Text, m0: T.Mark, items: seq<T.Item>, labels: bool, t: T.Text, m: T.Mark, ok: bool)
    requires 0 <= t0.top
  {
    ok == T.EmitAll(t0, items).1 && (t, m) == Concluded(T.EmitAll(t0, items).0, m0, labels, ok)
  }

  /** What the segment's compile does to the text, the map and the mark is what the step of
      the state machine does. */
  lemma CompileIsStep(s: System, u: Unit, t: T.Text, m: T.Mark, ok: bool)
    requires 0 <= s.text.top && D.Aligned(u.vars) && 0 <= s.data.ptr && (u.wantData ==> 0 <= u.dataHole.start)
    requires CodeRuns.InHole(u) ==> 0 < u.textHole.start
    requires var (t0, m0) := T.Begin(s.text, u.textHole.start, u.textHole.end, u.newFns);
      Compiled(t0, m0, u.items, u.labelsGrew, t, m, ok)
    ensures var s' := if ok then CompileEnds(s, u) else CompileThrows(s, u, false);
      && s'.text == t && |s'.marks| == |s.marks| + 1 && s'.marks[|s.marks|].text == m
      && s'.srcMap == MapAfter(s.srcMap, Begun(s, u), u.items, CodeRuns.InHole(u), ok)
  {
  }

  lemma MapAfterIs(map0: seq<Entry>, t0: T.Text, items: seq<T.Item>, m0: T.Mark, ok: bool)
    requires 0 <= t0.top && t0.top == m0.textStart
    ensures ConcludedMap(map0 + M.Located(t0, items), |map0|, m0, T.EmitAll(t0, items).0.top, ok)
         == MapAfter(map0, t0, items, m0.inHole, ok)
  {
  }

  /** What the release behind a throw needs. */
  ghost predicate CanThrow(g: T.Text, m: T.Mark) {
    !m.ended && if m.inHole then CanGiveBack(T.RestoreTop(g, m).0, T.RestoreTop(g, m).1) else CanGiveBack(g, m)
  }

  /** Whatever a compile has emitted, it can be given back. */
  lemma ThrowCanGiveBack(t: T.Text, own: seq<Owner>, regs: seq<Hole>, x: Hole, newFns: nat, g: T.Text)
    requires T.TextInv(t, own, regs) && (newFns > 0 && x.start != 0 ==> Listed(t.holes, x))
    requires T.Emitted(T.Begin(t, x.start, x.end, newFns).0, g)
    ensures var m := T.Begin(t, x.start, x.end, newFns).1;
      Canonical(g.holes) && CanThrow(g, m)
  {
    HolesWithin(t, own, regs);
    if newFns > 0 && x.start != 0 {
      HoleCanGiveBack(t, own, regs, x, g, T.Begin(t, x.start, x.end, newFns).1);
    }
  }

  lemma HoleStarts(t: T.Text, own: seq<Owner>, regs: seq<Hole>, x: Hole, newFns: nat)
    requires T.TextInv(t, own, regs) && (newFns > 0 && x.start != 0 ==> Listed(t.holes, x))
    ensures 0 <= T.Begin(t, x.start, x.end, newFns).0.top
  {
    if newFns > 0 && x.start != 0 { ListedCells(t.holes, own, x); }
  }

  /** A throw and the release that follows it at cond_depth 0. */
  function Thrown(g: T.Text, m: T.Mark): (T.Text, T.Mark) {
    var (t1, m1) := if m.inHole then T.RestoreTop(g, m) else (g, m);
    (T.GiveBack(t1, m1), m1.(textDone := true))
  }

  /** A compile that has emitted g ends or throws. */
  function Concluded(g: T.Text, m: T.Mark, labels: bool, ok: bool): (T.Text, T.Mark) {
    if ok then T.Finish(g, m, labels) else Thrown(g, m)
  }

  function ConcludedMap(entries: seq<Entry>, saved: nat, m: T.Mark, top: int, ok: bool): seq<Entry> {
    var merged := if m.inHole then MergeTailOf(entries, saved) else entries;
    if ok then merged else M.Released(merged, m.textStart + 1, top + 1)
  }

  /** The source map after a compile of items on t0. */
  function MapAfter(map0: seq<Entry>, t0: T.Text, items: seq<T.Item>, inHole: bool, ok: bool): seq<Entry>
    requires 0 <= t0.top
  {
    var m := M.Finished(map0, M.Located(t0, items), inHole);
    if ok then m else M.Released(m, t0.top + 1, T.EmitAll(t0, items).0.top + 1)
  }

  lemma HoleCanGiveBack(t: T.Text, own: seq<Owner>, regs: seq<Hole>, x: Hole, g: T.Text, m: T.Mark)
    requires T.TextInv(t, own, regs) && Listed(t.holes, x) && T.ThrewInHole(t, x, m) && T.Emitted(T.InHole(t, x), g)
    ensures var (t1, m1) := T.RestoreTop(g, m); CanGiveBack(t1, m1)
  {
    ListedCells(t.holes, own, x);
    assert In(x, x.start) && own[0] == Kept;
    HolesWithin(t, own, regs);
  }

  class DataSegment {
    var ptr: int
    var holes: seq<Hole>

    constructor (size: nat)
      ensures ptr == size && holes == []
    {
      ptr, holes := size, [];
    }

    ghost function State(): D.Data
      reads this
    {
      D.Data(ptr, holes)
    }

    /** The placement of new globals: a dry run against the hole x, then the loop. */
    method Place(vars: seq<D.Var>, want: bool, x: Hole) returns (m: D.Mark, offs: seq<int>)
      requires D.Aligned(vars) && 0 <= ptr && (want ==> 0 <= x.start) && Canonical(holes)
      modifies this
      ensures (State(), m) == D.Place(old(State()), vars, want, x)
      ensures D.Placed(vars, offs, m.dataStart, D.ReleaseEnd(State(), m))
    {
      m := D.Mark(false, false, |vars|, false, ptr, ptr, false);
      var inHole := false;
      if want && vars != [] {
        var end := D.NewVarsDataEnd(vars, x.start);
        inHole := end <= x.end;
      }
      if inHole {
        var cursor;
        offs, cursor := D.PlaceVars(vars, x.start);
        m := m.(inHole := true, dataStart := x.start, dataEnd := cursor);
        holes := ShrinkHole(holes, x.start, cursor);
      } else {
        offs, ptr := D.PlaceVars(vars, ptr);
      }
    }

    /** The data half of cc_code_release. */
    method Release(m: D.Mark, ghost own: seq<Owner>, ghost regs: seq<Hole>, ghost k: nat) returns (m': D.Mark)
      requires D.DataInv(State(), own, regs) && k < |regs|
      requires !m.dataDone ==> regs[k] == D.Region(State(), m) && 0 <= m.dataStart <= D.ReleaseEnd(State(), m)
      modifies this
      ensures (State(), m') == D.Release(old(State()), m)
    {
      m' := m;
      if m.dataDone { return; }
      var end := if m.ended || m.inHole then m.dataEnd else ptr;
      if (m.ended && m.newVars > 0 && !m.confined) || end == m.dataStart {
        m' := m.(dataDone := true);
      } else if ptr == end {
        ptr := m.dataStart;
        holes, ptr := AbsorbHoles(holes, ptr);
        m' := m.(dataDone := true);
      } else if m.confined {
        RegionCells(own, regs, k);
        FreedLists(holes, own, regs[k]);
        holes := AddHole(holes, m.dataStart, end);
        m' := m.(dataDone := true);
      }
    }
  }

  /** The reclaiming half of the VM: both segments, every mark begun, and the
      discarded marks that wait. */
  class CodeMachine {
    const text: TextSegment
    const data: DataSegment
    var marks: seq<Mark>
    var dead: seq<nat>
    var condDepth: nat
    ghost var textOwn: seq<Owner>
    ghost var textRegs: seq<Hole>
    ghost var dataOwn: seq<Owner>
    ghost var dataRegs: seq<Hole>

    constructor (words: nat, bytes: nat)
      requires words > 0
      ensures fresh(text) && fresh(text.words) && fresh(data) && Initial(View()) && condDepth == 0
    {
      text := new TextSegment(words);
      data := new DataSegment(bytes);
      marks, dead, condDepth := [], [], 0;
      textOwn, textRegs, dataRegs := [Kept], [], [];
      dataOwn := seq(bytes, _ => Kept);
    }

    ghost function View(): System
      reads this, text, text.words, data
    {
      System(text.State(), text.srcMap, data.State(), marks, dead, condDepth, textOwn, textRegs, dataOwn, dataRegs)
    }

    /** cc_code_release. */
    method Release(k: nat) returns (rc: int)
      requires Inv(View()) && k < |marks|
      modifies this, text, text.words, data
      ensures (View(), rc) == ReleaseStep(old(View()), k) && Inv(View())
    {
      CodeRuns.ReleaseKeeps(View(), k);
      if condDepth > 0 { return 0; }
      rc := ReleaseIdle(k);
    }

    method ReleaseIdle(k: nat) returns (rc: int)
      requires Inv(View()) && k < |marks| && condDepth == 0
      modifies this, text, text.words, data
      ensures (View(), rc) == ReleaseStep(old(View()), k)
    {
      var m := marks[k];
      var dm := data.Release(m.data, dataOwn, dataRegs, k);
      var tm;
      tm, rc := text.Release(m.text, textOwn, textRegs, k);
      textOwn := T.ReleasedOwn(textOwn, old(text.State()), m.text);
      textRegs := if tm.textDone then textRegs[k := Hole(0, 0)] else textRegs;
      dataOwn := D.ReleasedOwn(dataOwn, old(data.State()), m.data);
      dataRegs := if dm.dataDone then dataRegs[k := Hole(0, 0)] else dataRegs;
      marks := marks[k := Mark(tm, dm)];
    }

    /** cc_code_discard. */
    method Discard(k: nat)
      requires Inv(View()) && k < |marks| && k !in dead
      modifies this, text, text.words, data
      ensures View() == Next(old(View()), Step.Discard(k)) && Inv(View())
    {
      StepKeeps(View(), Step.Discard(k));
      var rc := Release(k);
      if rc != 0 { return; }
      dead := dead + [k];
    }

    /** One round of the retry loop: the mark leaves the list unless it must wait. */
    method RetryOne(i: nat) returns (waits: bool)
      requires Inv(View()) && i < |dead|
      modifies this, text, text.words, data
      ensures Inv(View()) && condDepth == old(condDepth)
      ensures |dead| == old(|dead|) - if waits then 0 else 1
      ensures Retry(View(), if waits then i + 1 else i) == Retry(old(View()), i)
    {
      CodeRuns.ReleaseKeeps(View(), dead[i]);
      var rc := Release(dead[i]);
      waits := rc == 0;
      if !waits {
        dead := dead[..i] + dead[i + 1..];
      }
    }

    /** cc_code_retry_dead. */
    method RetryDead()
      requires Inv(View())
      modifies this, text, text.words, data
      ensures View() == Next(old(View()), Step.RetryDead) && Inv(View())
      ensures condDepth == 0 ==> dead == []
    {
      RetryKeeps(View(), 0);
      RetryAll();
    }

    method RetryAll()
      requires Inv(View())
      modifies this, text, text.words, data
      ensures View() == Retry(old(View()), 0) && Inv(View()) && condDepth == old(condDepth)
    {
      ghost var done := Retry(View(), 0);
      var i := 0;
      while i < |dead|
        invariant 0 <= i && Inv(View()) && condDepth == old(condDepth)
        invariant Retry(View(), i) == done
        decreases |dead| - i
      {
        var waits := RetryOne(i);
        if waits { i := i + 1; }
      }
    }
  }
}
