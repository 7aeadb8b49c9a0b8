/** Reclaimed data (src/codegen_func.c:976-1085, 1169-1227, 1351-1368): placing
    new globals at the top or in a data hole, and giving their bytes back. */
module DataSpace {
  import opened Align
  import opened Holes
  import opened Ownership

  /** data_ptr (the first byte not in use) and data_holes. */
  datatype Data = Data(ptr: int, holes: seq<Hole>)

  /** The data half of a CcCodeMark and what decides its release. */
  datatype Mark = Mark(ended: bool, confined: bool, newVars: nat,
                       inHole: bool, dataStart: int, dataEnd: int, dataDone: bool)

  /** A new global; skip stands for one that takes no data (an alias of an older
      object, a thread-local). */
  datatype Var = Var(size: nat, align: nat, skip: bool)

  ghost predicate Aligned(vars: seq<Var>) {
    forall i :: 0 <= i < |vars| ==> vars[i].align > 0
  }

  // ---------- placement ----------

  /** Where the globals end if placed from off. */
  function End(vars: seq<Var>, off: nat): (r: nat)
    requires Aligned(vars)
    ensures off <= r
  {
    if vars == [] then off
    else if vars[0].skip then End(vars[1..], off)
    else End(vars[1..], AlignUp(off, vars[0].align) + vars[0].size)
  }

  lemma {:induction false} EndSnoc(vars: seq<Var>, v: Var, off: nat)
    requires Aligned(vars) && v.align > 0
    ensures End(vars + [v], off) == if v.skip then End(vars, off) else AlignUp(End(vars, off), v.align) + v.size
  {
    var all := vars + [v];
    if vars == [] {
      assert all[1..] == [];
    } else {
      assert all[1..] == vars[1..] + [v];
      EndSnoc(vars[1..], v, if vars[0].skip then off else AlignUp(off, vars[0].align) + vars[0].size);
    }
  }

  /** new_vars_data_end, the dry run. */
  method NewVarsDataEnd(vars: seq<Var>, start: nat) returns (off: nat)
    requires Aligned(vars)
    ensures off == End(vars, start)
  {
    off := start;
    for i := 0 to |vars|
      invariant off == End(vars[..i], start)
    {
      EndSnoc(vars[..i], vars[i], start);
      assert vars[..i + 1] == vars[..i] + [vars[i]];
      if vars[i].skip { continue; }
      off := AlignUp(off, vars[i].align);
      off := off + vars[i].size;
    }
    assert vars[..|vars|] == vars;
  }

  /** Every placed global is aligned, lies between start and cursor, and lies
      above all placed before it. */
  ghost predicate Placed(vars: seq<Var>, offs: seq<int>, start: int, cursor: int) {
    && |offs| == |vars|
    && (forall i :: 0 <= i < |vars| && !vars[i].skip ==>
          vars[i].align > 0 && offs[i] % vars[i].align == 0 && start <= offs[i] && offs[i] + vars[i].size <= cursor)
    && (forall i, j :: 0 <= i < j < |vars| && !vars[i].skip && !vars[j].skip ==> offs[i] + vars[i].size <= offs[j])
  }

  /** The allocation loop of cc_repl_compile_new_marked: the real cursor ends
      where the dry run said. */
  method PlaceVars(vars: seq<Var>, start: nat) returns (offs: seq<int>, cursor: nat)
    requires Aligned(vars)
    ensures cursor == End(vars, start)
    ensures Placed(vars, offs, start, cursor)
  {
    offs, cursor := [], start;
    for i := 0 to |vars|
      invariant cursor == End(vars[..i], start)
      invariant Placed(vars[..i], offs, start, cursor)
    {
      EndSnoc(vars[..i], vars[i], start);
      assert vars[..i + 1] == vars[..i] + [vars[i]];
      if vars[i].skip {
        offs := offs + [0];
        continue;
      }
      AlignUpMultiple(cursor, vars[i].align);
      cursor := AlignUp(cursor, vars[i].align);
      offs := offs + [cursor];
      cursor := cursor + vars[i].size;
    }
    assert vars[..|vars|] == vars;
  }

  /** The dry run is right about where a placement must end: there is one that ends there,
      and none ends below. */
  lemma {:induction false} EndIsReached(vars: seq<Var>, start: nat) returns (offs: seq<int>)
    requires Aligned(vars)
    ensures Placed(vars, offs, start, End(vars, start))
    decreases |vars|
  {
    offs := [];
    if vars != [] {
      var v, rest := vars[0], vars[1..];
      var o := if v.skip then start else AlignUp(start, v.align);
      var next := if v.skip then start else o + v.size;
      if !v.skip { AlignUpMultiple(start, v.align); }
      var behind := EndIsReached(rest, next);
      PlacedFront(v, rest, o, behind, start, next, End(vars, start));
      offs := [o] + behind;
      assert vars == [v] + rest;
    }
  }

  /** A global in front of a placement that starts behind it. */
  lemma PlacedFront(v: Var, rest: seq<Var>, o: int, offs: seq<int>, start: int, next: int, cursor: int)
    requires Placed(rest, offs, next, cursor) && start <= next <= cursor
    requires v.skip || (v.align > 0 && o % v.align == 0 && start <= o && o + v.size <= next)
    ensures Placed([v] + rest, [o] + offs, start, cursor)
  {
    var vars, all := [v] + rest, [o] + offs;
    forall i | 0 <= i < |vars| && !vars[i].skip
      ensures vars[i].align > 0 && all[i] % vars[i].align == 0 && start <= all[i] && all[i] + vars[i].size <= cursor
    {
      if i > 0 { assert vars[i] == rest[i - 1] && all[i] == offs[i - 1]; }
    }
    forall i, j | 0 <= i < j < |vars| && !vars[i].skip && !vars[j].skip ensures all[i] + vars[i].size <= all[j] {
      assert vars[j] == rest[j - 1] && all[j] == offs[j - 1];
      if i > 0 { assert vars[i] == rest[i - 1] && all[i] == offs[i - 1]; }
    }
  }

  lemma {:induction false} EndIsLeast(vars: seq<Var>, offs: seq<int>, start: nat, cursor: int)
    requires Aligned(vars) && Placed(vars, offs, start, cursor) && start <= cursor
    ensures End(vars, start) <= cursor
    decreases |vars|
  {
    if vars != [] {
      var v := vars[0];
      var next := if v.skip then start else AlignUp(start, v.align) + v.size;
      if !v.skip {
        AlignUpLeast(start, v.align, offs[0]);
      }
      PlacedBehind(vars, offs, start, next, cursor);
      EndIsLeast(vars[1..], offs[1..], next, cursor);
    }
  }

  lemma PlacedBehind(vars: seq<Var>, offs: seq<int>, start: int, next: int, cursor: int)
    requires Placed(vars, offs, start, cursor) && vars != []
    requires if vars[0].skip then next == start else next <= offs[0] + vars[0].size
    ensures Placed(vars[1..], offs[1..], next, cursor)
  {
  }

  /** What a compile does to the data: a requested hole x is taken if everything
      fits, the top otherwise. */
  function Place(d: Data, vars: seq<Var>, want: bool, x: Hole): (Data, Mark)
    requires Aligned(vars) && 0 <= d.ptr && (want ==> 0 <= x.start)
  {
    if want && End(vars, x.start) <= x.end && vars != [] then
      (d.(holes := Carve(d.holes, x.start, End(vars, x.start))),
       Mark(false, false, |vars|, true, x.start, End(vars, x.start), false))
    else
      (d.(ptr := End(vars, d.ptr)), Mark(false, false, |vars|, false, d.ptr, d.ptr, false))
  }

  /** A requested hole is taken exactly when there are globals and they can be placed in it. */
  lemma TakesHoleExactly(d: Data, vars: seq<Var>, want: bool, x: Hole)
    requires Aligned(vars) && 0 <= d.ptr && (want ==> 0 <= x.start <= x.end)
    ensures Place(d, vars, want, x).1.inHole <==>
            want && vars != [] && exists offs :: Placed(vars, offs, x.start, x.end)
  {
    if want && vars != [] {
      if End(vars, x.start) <= x.end {
        var offs := EndIsReached(vars, x.start);
        assert Placed(vars, offs, x.start, x.end);
      }
      if offs :| Placed(vars, offs, x.start, x.end) { EndIsLeast(vars, offs, x.start, x.end); }
    }
  }

  /** The data half of cc_code_mark_end. */
  function Finish(d: Data, m: Mark): Mark {
    if m.inHole then m.(ended := true) else m.(ended := true, dataEnd := d.ptr)
  }

  // ---------- releasing ----------

  function ReleaseEnd(d: Data, m: Mark): int {
    if m.ended || m.inHole then m.dataEnd else d.ptr
  }

  /** Data that must outlive its wrapper: a string literal or a static. */
  predicate MustStay(m: Mark) {
    m.ended && m.newVars > 0 && !m.confined
  }

  /** The data half of cc_code_release, past the cond_depth test. */
  function Release(d: Data, m: Mark): (Data, Mark) {
    var end := ReleaseEnd(d, m);
    if m.dataDone then (d, m)
    else if MustStay(m) || end == m.dataStart then (d, m.(dataDone := true))
    else if d.ptr == end then
      var (h, l) := Absorb(d.holes, m.dataStart);
      (Data(l, h), m.(dataDone := true))
    else if m.confined then
      (d.(holes := Insert(d.holes, m.dataStart, end)), m.(dataDone := true))
    else (d, m)
  }

  // ---------- the invariant ----------

  /** own splits the bytes below data_ptr, and the byte just below it is in use:
      no hole ever touches data_ptr. */
  ghost predicate DataInv(d: Data, own: seq<Owner>, regs: seq<Hole>) {
    && d.ptr == |own| && ListsFree(d.holes, own) && Owned(own, regs)
    && (|own| > 0 ==> own[|own| - 1] != FreeCell)
  }

  lemma NoHoleAtTop(d: Data, own: seq<Owner>, regs: seq<Hole>, i: nat)
    requires DataInv(d, own, regs) && i < |d.holes|
    ensures 0 <= d.holes[i].start < d.holes[i].end < d.ptr
  {
    ListedCells(d.holes, own, d.holes[i]);
    assert In(d.holes[i], d.holes[i].end - 1);
  }

  /** The region a compile owns right after its globals were placed. */
  function Region(d: Data, m: Mark): Hole {
    Hole(m.dataStart, ReleaseEnd(d, m))
  }

  function PlacedOwn(own: seq<Owner>, d: Data, m: Mark, id: nat): seq<Owner> {
    if m.inHole then Marked(own, m.dataStart, m.dataEnd, Of(id)) else Grown(own, d.ptr, Of(id))
  }

  lemma PlaceKeeps(d: Data, own: seq<Owner>, regs: seq<Hole>, vars: seq<Var>, want: bool, x: Hole)
    requires DataInv(d, own, regs) && Aligned(vars)
    requires want ==> Listed(d.holes, x) && 0 <= x.start
    ensures var (d', m) := Place(d, vars, want, x);
      && |own| <= d'.ptr
      && DataInv(d', PlacedOwn(own, d', m, |regs|), regs + [Region(d', m)])
      && (m.inHole ==> x.start == m.dataStart <= m.dataEnd <= x.end)
  {
    var (d', m) := Place(d, vars, want, x);
    var r := Region(d', m);
    var own' := PlacedOwn(own, d', m, |regs|);
    if m.inHole {
      ListedCells(d.holes, own, x);
      assert forall w :: In(r, w) ==> In(x, w);
      CarvedLists(d.holes, own, x, m.dataEnd, Of(|regs|));
    }
    OwnedGrows(own, own', regs, r);
  }

  /** Who owns what after a release of compile k. */
  function ReleasedOwn(own: seq<Owner>, d: Data, m: Mark): seq<Owner> {
    var end := ReleaseEnd(d, m);
    if m.dataDone then own
    else if MustStay(m) then Marked(own, m.dataStart, end, Kept)
    else if end == m.dataStart then own
    else if d.ptr == end then Prefix(own, Release(d, m).0.ptr)
    else if m.confined then Marked(own, m.dataStart, end, FreeCell)
    else own
  }

  /** A release keeps the split: it gives back exactly the bytes of compile k, or
      none, and no hole comes to touch data_ptr. */
  lemma ReleaseKeeps(d: Data, own: seq<Owner>, regs: seq<Hole>, k: nat, m: Mark)
    requires DataInv(d, own, regs) && k < |regs|
    requires !m.dataDone ==> regs[k] == Region(d, m) && 0 <= m.dataStart <= ReleaseEnd(d, m)
    ensures var (d', m') := Release(d, m);
      && 0 <= d'.ptr <= d.ptr
      && DataInv(d', ReleasedOwn(own, d, m), if m'.dataDone && !m.dataDone then regs[k := Hole(0, 0)] else regs)
  {
    var (d', m') := Release(d, m);
    var r := Region(d, m);
    if m.dataDone {
    } else if MustStay(m) {
      KeptLists(d, own, regs, k);
      FreedOwned(own, regs, k, Kept);
    } else if r.end == r.start {
      assert Marked(own, r.start, r.end, Kept) == own;
      FreedOwned(own, regs, k, Kept);
    } else {
      RegionCells(own, regs, k);
      assert In(r, r.start) && In(r, r.end - 1);
      if d.ptr == r.end {
        ReleaseTop(d, own, regs, k);
      } else if m.confined {
        FreedLists(d.holes, own, r);
        FreedOwned(own, regs, k, FreeCell);
      }
    }
  }

  /** A compile that threw, released at once. */
  lemma PlaceThenRelease(d: Data, own: seq<Owner>, regs: seq<Hole>, vars: seq<Var>, want: bool, x: Hole)
    requires DataInv(d, own, regs) && Aligned(vars)
    requires want ==> Listed(d.holes, x) && 0 <= x.start
    ensures var (d1, m1) := Place(d, vars, want, x); var (d2, m2) := Release(d1, m1);
      var r := if m2.dataDone then Hole(0, 0) else Region(d1, m1);
      && DataInv(d2, ReleasedOwn(PlacedOwn(own, d1, m1, |regs|), d1, m1), regs + [r])
      && (!m2.dataDone ==> m2.inHole && 0 <= m2.dataStart <= m2.dataEnd && r == Hole(m2.dataStart, m2.dataEnd))
  {
    PlaceKeeps(d, own, regs, vars, want, x);
    var (d1, m1) := Place(d, vars, want, x);
    assert !m1.dataDone && 0 <= m1.dataStart <= ReleaseEnd(d1, m1);
    ReleaseLast(d1, PlacedOwn(own, d1, m1, |regs|), regs, m1);
  }

  /** The release of the newest mark. */
  lemma ReleaseLast(d: Data, own: seq<Owner>, regs: seq<Hole>, m: Mark)
    requires DataInv(d, own, regs + [Region(d, m)]) && !m.dataDone && 0 <= m.dataStart <= ReleaseEnd(d, m)
    ensures var (d', m') := Release(d, m);
      DataInv(d', ReleasedOwn(own, d, m), regs + [if m'.dataDone then Hole(0, 0) else Region(d, m)])
  {
    var all := regs + [Region(d, m)];
    ReleaseKeeps(d, own, all, |regs|, m);
    assert all[|regs| := Hole(0, 0)] == regs + [Hole(0, 0)];
  }

  lemma KeptLists(d: Data, own: seq<Owner>, regs: seq<Hole>, k: nat)
    requires DataInv(d, own, regs) && k < |regs|
    ensures ListsFree(d.holes, Marked(own, regs[k].start, regs[k].end, Kept))
  {
    RegionCells(own, regs, k);
    forall w ensures Free(d.holes, w) <==>
      0 <= w < |own| && Marked(own, regs[k].start, regs[k].end, Kept)[w] == FreeCell {
      assert 0 <= w < |own| ==> (In(regs[k], w) <==> own[w] == Of(k));
    }
  }

  lemma ReleaseTop(d: Data, own: seq<Owner>, regs: seq<Hole>, k: nat)
    requires DataInv(d, own, regs) && k < |regs| && 0 <= regs[k].start < regs[k].end == d.ptr
    ensures var (h, l) := Absorb(d.holes, regs[k].start);
      0 <= l <= regs[k].start && DataInv(Data(l, h), own[..l], regs[k := Hole(0, 0)])
  {
    var r := regs[k];
    RegionCells(own, regs, k);
    assert forall w :: r.start <= w < |own| ==> In(r, w);
    assert ListsFree(d.holes, own[..r.start]);
    AbsorbLists(d.holes, own[..r.start]);
    var (h, l) := Absorb(d.holes, r.start);
    assert own[..r.start][..l] == own[..l];
    OwnedDrops(own, own[..l], regs, k);
  }
}
