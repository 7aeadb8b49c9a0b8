/** Reclaimed text (src/codegen_func.c:875-971, 1091-1119, 1339-1404): what each
    operation of the mark protocol does to the text segment and its holes, as
    functions on values, and the invariant they keep. The source map, which none of
    them reads, is in TextMap. */
module TextSpace {
  import opened Holes
  import opened Ownership

  /** The filler opcode of a reclaimed word. */
  const Filler := -1

  /** text_seg, text_ptr (the last word in use; word 0 is reserved), text_limit
      and text_holes. */
  datatype Text = Text(words: seq<int>, top: int, limit: int, holes: seq<Hole>)

  /** The text half of a CcCodeMark and what decides its release. */
  datatype Mark = Mark(ended: bool, confined: bool, newFns: nat, labelsGrew: bool,
                       inHole: bool, textStart: int, textEnd: int, textDone: bool,
                       holeStart: int, holeEnd: int, savedTop: int)

  /** What code generation does to the segment: a word, or a source location for
      the next word. */
  datatype Item = Word(value: int) | Source(file: nat, line: int)

  // ---------- compiling ----------

  predicate Full(t: Text) {
    (t.limit != 0 && t.top + 1 >= t.limit) || t.top + 1 >= |t.words|
  }

  /** emit_word and emit_source_location; a full segment or hole throws. */
  function EmitAll(t: Text, items: seq<Item>): (r: (Text, bool))
    requires 0 <= t.top
    decreases |items|
  {
    if items == [] then (t, true)
    else match items[0]
      case Source(_, _) => EmitAll(t, items[1..])
      case Word(v) =>
        if Full(t) then (t, false)
        else EmitAll(t.(words := t.words[t.top + 1 := v], top := t.top + 1), items[1..])
  }

  /** cc_code_mark_begin, then the switch to a requested hole. */
  function Begin(t: Text, holeStart: int, holeEnd: int, newFns: nat): (Text, Mark) {
    var m := Mark(false, false, newFns, false, false, t.top, t.top, false, holeStart, holeEnd, t.top);
    if newFns > 0 && holeStart != 0 then
      (t.(top := holeStart - 1, limit := holeEnd), m.(inHole := true, textStart := holeStart - 1))
    else (t, m)
  }

  /** restore_top_state. */
  function RestoreTop(t: Text, m: Mark): (Text, Mark) {
    (t.(top := m.savedTop, limit := 0), m.(textEnd := t.top))
  }

  /** leave_text_hole. */
  function LeaveHole(t: Text, m: Mark): (Text, Mark) {
    var (t1, m1) := RestoreTop(t, m);
    (t1.(holes := Carve(t1.holes, m1.holeStart, m1.textEnd + 1)), m1)
  }

  /** The end of a compile that did not throw: leave the hole, cc_code_mark_end. */
  function Finish(t: Text, m: Mark, labelsGrew: bool): (Text, Mark) {
    var (t1, m1) := if m.inHole then LeaveHole(t, m) else (t, m.(textEnd := t.top));
    (t1, m1.(ended := true, labelsGrew := labelsGrew))
  }

  // ---------- releasing ----------

  /** words with [a, b) set to v. */
  function Filled(words: seq<int>, a: int, b: int, v: int): (r: seq<int>)
    ensures |r| == |words|
    ensures forall i :: 0 <= i < |words| ==> r[i] == if a <= i < b then v else words[i]
  {
    seq(|words|, i requires 0 <= i < |words| => if a <= i < b then v else words[i])
  }

  /** absorb_text_holes. */
  function AbsorbTop(t: Text): Text {
    var (h, l) := Absorb(t.holes, t.top + 1);
    t.(holes := h, top := l - 1, words := Filled(t.words, l, t.top + 1, 0))
  }

  /** The words a release would give back end here. */
  function ReleaseEnd(t: Text, m: Mark): int {
    if m.ended || m.inHole then m.textEnd else t.top
  }

  predicate MustStay(m: Mark) {
    m.ended && !m.confined && (m.newFns > 1 || m.labelsGrew)
  }

  /** The text half of cc_code_release, past the cond_depth test. */
  function Release(t: Text, m: Mark): (Text, Mark, int) {
    if m.textDone then (t, m, 1)
    else if MustStay(m) then (t, m, -1)
    else (GiveBack(t, m), m.(textDone := true), 1)
  }

  function GiveBack(t: Text, m: Mark): Text {
    var start, end := m.textStart + 1, ReleaseEnd(t, m) + 1;
    if end == start then t
    else if m.inHole || t.top != end - 1 then
      t.(words := Filled(t.words, start, end, Filler),
         holes := if m.ended then Insert(t.holes, start, end) else t.holes)
    else
      AbsorbTop(t.(words := Filled(t.words, start, end, 0), top := m.textStart))
  }

  // ---------- the invariant ----------

  /** own splits 0..top: the free words are exactly the words of the canonical
      hole list and hold the filler, as lost ones do; the words of compile k are
      exactly its region. */
  ghost predicate TextInv(t: Text, own: seq<Owner>, regs: seq<Hole>) {
    && t.limit == 0 && 0 <= t.top < |t.words| && |own| == t.top + 1
    && (forall w :: 0 <= w < |own| ==> (own[w] == Kept <==> w == 0))
    && ListsFree(t.holes, own) && HoldFiller(t.words, own) && Owned(own, regs)
  }

  ghost predicate HoldFiller(words: seq<int>, own: seq<Owner>) {
    |own| <= |words| && forall w :: 0 <= w < |own| && (own[w] == FreeCell || own[w] == LostCell) ==> words[w] == Filler
  }

  // ---------- emission ----------

  /** What a run of emissions does, whether or not it throws. */
  ghost predicate Emitted(t: Text, u: Text) {
    && t.top <= u.top && |u.words| == |t.words| && u.limit == t.limit && u.holes == t.holes
    && (t.top < |t.words| ==> u.top < |t.words|)
    && (t.limit != 0 && t.top < t.limit ==> u.top < t.limit)
    && (forall w :: 0 <= w < |t.words| && !(t.top < w <= u.top) ==> u.words[w] == t.words[w])
  }

  lemma {:induction false} EmitAllEmits(t: Text, items: seq<Item>)
    requires 0 <= t.top
    ensures Emitted(t, EmitAll(t, items).0)
    decreases |items|
  {
    if items != [] {
      match items[0]
      case Source(_, _) =>
        EmitAllEmits(t, items[1..]);
      case Word(v) =>
        if !Full(t) {
          EmitAllEmits(t.(words := t.words[t.top + 1 := v], top := t.top + 1), items[1..]);
        }
    }
  }

  // ---------- compiling keeps the invariant ----------

  /** A compile at the top adds its words to the split and nothing else. */
  lemma CompileAtTop(t: Text, own: seq<Owner>, regs: seq<Hole>, u: Text)
    requires TextInv(t, own, regs) && Emitted(t, u)
    ensures TextInv(u, Grown(own, u.top + 1, Of(|regs|)), regs + [Hole(t.top + 1, u.top + 1)])
  {
    OwnedGrows(own, Grown(own, u.top + 1, Of(|regs|)), regs, Hole(t.top + 1, u.top + 1));
  }

  /** The text as a compile into hole x starts on it. */
  function InHole(t: Text, x: Hole): Text {
    t.(top := x.start - 1, limit := x.end)
  }

  /** A compile into a listed hole takes its words from the free set. */
  lemma CompileInHole(t: Text, own: seq<Owner>, regs: seq<Hole>, x: Hole, u: Text)
    requires TextInv(t, own, regs) && Listed(t.holes, x) && Emitted(InHole(t, x), u)
    ensures 0 < x.start && x.start - 1 <= u.top < x.end
    ensures TextInv(u.(top := t.top, limit := 0, holes := Carve(t.holes, x.start, u.top + 1)),
                    Marked(own, x.start, u.top + 1, Of(|regs|)), regs + [Hole(x.start, u.top + 1)])
  {
    var taken := Hole(x.start, u.top + 1);
    ListedCells(t.holes, own, x);
    assert In(x, x.start);
    forall w ensures In(taken, w) ==> In(x, w) {}
    OwnedGrows(own, Marked(own, taken.start, taken.end, Of(|regs|)), regs, taken);
    CarvedLists(t.holes, own, x, taken.end, Of(|regs|));
  }

  /** Begin, emit g, finish: in the hole that was asked for. */
  lemma UnitInHole(t: Text, own: seq<Owner>, regs: seq<Hole>, x: Hole, newFns: nat, g: Text, labels: bool)
    requires TextInv(t, own, regs) && Listed(t.holes, x) && newFns > 0 && x.start != 0
    requires Emitted(InHole(t, x), g)
    ensures var (t0, m0) := Begin(t, x.start, x.end, newFns); var (t', m) := Finish(g, m0, labels);
      && t0 == InHole(t, x)
      && m.textStart + 1 == x.start && m.textEnd == g.top && Agrees(m, Hole(x.start, g.top + 1))
      && TextInv(t', Marked(own, x.start, g.top + 1, Of(|regs|)), regs + [Hole(x.start, g.top + 1)])
  {
    CompileInHole(t, own, regs, x, g);
    assert Finish(g, Begin(t, x.start, x.end, newFns).1, labels).0 ==
           g.(top := t.top, limit := 0, holes := Carve(t.holes, x.start, g.top + 1));
  }

  /** The same at the top. */
  lemma UnitAtTop(t: Text, own: seq<Owner>, regs: seq<Hole>, x: Hole, newFns: nat, g: Text, labels: bool)
    requires TextInv(t, own, regs) && !(newFns > 0 && x.start != 0) && Emitted(t, g)
    ensures var (t0, m0) := Begin(t, x.start, x.end, newFns); var (t', m) := Finish(g, m0, labels);
      && t0 == t && t' == g && m.textStart == t.top && m.textEnd == g.top && Agrees(m, Hole(t.top + 1, g.top + 1))
      && TextInv(t', Grown(own, g.top + 1, Of(|regs|)), regs + [Hole(t.top + 1, g.top + 1)])
  {
    CompileAtTop(t, own, regs, g);
  }

  // ---------- releasing keeps the invariant ----------

  /** Mark m of a finished compile still owns the words of its region r. */
  ghost predicate Holds(m: Mark, r: Hole) {
    m.ended && !m.textDone && m.textStart < m.textEnd && r == Hole(m.textStart + 1, m.textEnd + 1)
  }

  /** Releasing below the top, or in a hole: the words become one free range. */
  lemma ReleaseBelow(t: Text, own: seq<Owner>, regs: seq<Hole>, k: nat, m: Mark)
    requires TextInv(t, own, regs) && k < |regs| && Holds(m, regs[k])
    requires m.inHole || t.top != m.textEnd
    ensures TextInv(GiveBack(t, m), Marked(own, m.textStart + 1, m.textEnd + 1, FreeCell), regs[k := Hole(0, 0)])
  {
    var r := regs[k];
    RegionCells(own, regs, k);
    FreedLists(t.holes, own, r);
    FreedOwned(own, regs, k, FreeCell);
    assert !In(r, 0);
  }

  /** Releasing at the top: the top drops below the words and below any free
      words it then meets, and no further. */
  lemma ReleaseTop(t: Text, own: seq<Owner>, regs: seq<Hole>, k: nat, m: Mark)
    requires TextInv(t, own, regs) && k < |regs| && Holds(m, regs[k])
    requires !m.inHole && t.top == m.textEnd
    ensures var u := GiveBack(t, m);
      && 0 <= u.top <= m.textStart
      && (forall w :: u.top < w <= m.textStart ==> own[w] == FreeCell)
      && own[u.top] != FreeCell
      && TextInv(u, own[..u.top + 1], regs[k := Hole(0, 0)])
  {
    var r := regs[k];
    var v := t.(words := Filled(t.words, r.start, r.end, 0), top := m.textStart);
    TopRegion(t, own, regs, k, v);
    AbsorbKeeps(v, own[..r.start]);
    var u := AbsorbTop(v);
    assert u == GiveBack(t, m);
    assert own[..u.top + 1] == own[..r.start][..u.top + 1];
    TruncatedOwned(own, regs, k, u.top + 1);
  }

  lemma TopRegion(t: Text, own: seq<Owner>, regs: seq<Hole>, k: nat, v: Text)
    requires TextInv(t, own, regs) && k < |regs| && regs[k].start < regs[k].end == t.top + 1
    requires v.holes == t.holes && v.words == Filled(t.words, regs[k].start, regs[k].end, 0)
    ensures 0 < regs[k].start && own[0] == Kept
    ensures ListsFree(v.holes, own[..regs[k].start]) && HoldFiller(v.words, own[..regs[k].start])
  {
    var r := regs[k];
    RegionCells(own, regs, k);
    assert In(r, r.start) && !In(r, 0) by { assert own[0] == Kept; }
    forall w | r.start <= w < |own| ensures own[w] != FreeCell { assert In(r, w); }
    ShorterLists(t.holes, own, r.start);
  }

  lemma AbsorbKeeps(v: Text, own: seq<Owner>)
    requires 0 <= v.top && |own| == v.top + 1 && own[0] == Kept
    requires ListsFree(v.holes, own) && HoldFiller(v.words, own)
    ensures var u := AbsorbTop(v);
      && 0 <= u.top <= v.top && u.limit == v.limit && |u.words| == |v.words|
      && ListsFree(u.holes, own[..u.top + 1]) && HoldFiller(u.words, own[..u.top + 1])
      && (forall w :: u.top < w <= v.top ==> own[w] == FreeCell)
      && own[u.top] != FreeCell
  {
    AbsorbLists(v.holes, own);
  }

  lemma ShorterLists(h: seq<Hole>, own: seq<Owner>, n: int)
    requires ListsFree(h, own) && 0 <= n <= |own|
    requires forall w :: n <= w < |own| ==> own[w] != FreeCell
    ensures ListsFree(h, own[..n])
  {
  }

  /** Who owns what after a release of mark m. */
  function ReleasedOwn(own: seq<Owner>, t: Text, m: Mark): seq<Owner> {
    var end := ReleaseEnd(t, m);
    if m.textDone || MustStay(m) || end == m.textStart then own
    else if m.inHole || t.top != end then Marked(own, m.textStart + 1, end + 1, FreeCell)
    else Prefix(own, GiveBack(t, m).top + 1)
  }

  /** What an idle mark says about its region: it owns it until it is done. */
  ghost predicate Agrees(m: Mark, r: Hole) {
    if m.textDone then r == Hole(0, 0)
    else m.ended && m.textStart <= m.textEnd && r == Hole(m.textStart + 1, m.textEnd + 1)
  }

  /** A release keeps the split: it gives back exactly the words of compile k, or
      none. */
  lemma ReleaseKeeps(t: Text, own: seq<Owner>, regs: seq<Hole>, k: nat, m: Mark)
    requires TextInv(t, own, regs) && k < |regs| && Agrees(m, regs[k])
    ensures var (t', m', rc) := Release(t, m);
      && rc != 0 && (rc == 1 <==> m'.textDone)
      && Agrees(m', if m'.textDone then Hole(0, 0) else regs[k])
      && TextInv(t', ReleasedOwn(own, t, m), if m'.textDone then regs[k := Hole(0, 0)] else regs)
  {
    if m.textDone {
      assert regs[k := Hole(0, 0)] == regs;
    } else if !MustStay(m) {
      GiveBackKeeps(t, own, regs, k, m);
    }
  }

  lemma GiveBackKeeps(t: Text, own: seq<Owner>, regs: seq<Hole>, k: nat, m: Mark)
    requires TextInv(t, own, regs) && k < |regs| && Agrees(m, regs[k]) && !m.textDone && !MustStay(m)
    ensures TextInv(GiveBack(t, m), ReleasedOwn(own, t, m), regs[k := Hole(0, 0)])
    ensures OnlyDrops(own, ReleasedOwn(own, t, m), m.textStart + 1, m.textEnd + 1)
  {
    var u, own' := GiveBack(t, m), ReleasedOwn(own, t, m);
    if m.textStart == m.textEnd {
      assert Marked(own, regs[k].start, regs[k].end, Kept) == own;
      FreedOwned(own, regs, k, Kept);
      assert u == t && own' == own;
    } else if m.inHole || t.top != m.textEnd {
      ReleaseBelow(t, own, regs, k, m);
      assert own' == Marked(own, m.textStart + 1, m.textEnd + 1, FreeCell);
    } else {
      ReleaseTop(t, own, regs, k, m);
      assert own' == own[..u.top + 1];
    }
  }

  /** Live cells outside [start, end) keep their owner. */
  ghost predicate OnlyDrops(own: seq<Owner>, own': seq<Owner>, start: int, end: int) {
    && |own'| <= |own|
    && forall w :: 0 <= w < |own| && own[w].Of? && !(start <= w < end) ==> w < |own'| && own'[w] == own[w]
  }

  // ---------- compiles that throw ----------

  /** The mark of a compile at the top that threw. */
  ghost predicate ThrewAtTop(t: Text, m: Mark) {
    !m.ended && !m.inHole && !m.textDone && m.textStart == t.top
  }

  /** A compile at the top that threw gives back every word it emitted. */
  lemma ThrowAtTop(t: Text, own: seq<Owner>, regs: seq<Hole>, u: Text, m: Mark)
    requires TextInv(t, own, regs) && Emitted(t, u) && ThrewAtTop(t, m)
    ensures var r := GiveBack(u, m);
      && 0 <= r.top <= t.top
      && (forall w :: r.top < w <= t.top ==> own[w] == FreeCell)
      && TextInv(r, own[..r.top + 1], regs + [Hole(0, 0)])
  {
    if u.top == t.top {
      assert u.words == t.words;
      OwnedAddsEmpty(own, |own|, regs);
      assert own[..|own|] == own;
    } else {
      var v := u.(words := Filled(u.words, t.top + 1, u.top + 1, 0), top := t.top);
      assert GiveBack(u, m) == AbsorbTop(v);
      RollBack(t, own, regs, v);
    }
  }

  lemma RollBack(t: Text, own: seq<Owner>, regs: seq<Hole>, v: Text)
    requires TextInv(t, own, regs)
    requires v == t.(words := v.words) && |v.words| == |t.words|
    requires forall w :: 0 <= w <= t.top ==> v.words[w] == t.words[w]
    ensures var r := AbsorbTop(v);
      && 0 <= r.top <= t.top
      && (forall w :: r.top < w <= t.top ==> own[w] == FreeCell)
      && TextInv(r, own[..r.top + 1], regs + [Hole(0, 0)])
  {
    assert own[0] == Kept;
    AbsorbKeeps(v, own);
    var r := AbsorbTop(v);
    OwnedAddsEmpty(own, r.top + 1, regs);
  }

  /** The mark of a compile into hole x, started on t, that threw. */
  ghost predicate ThrewInHole(t: Text, x: Hole, m: Mark) {
    && !m.ended && m.inHole && !m.textDone && m.textStart == x.start - 1
    && m.holeStart == x.start && m.holeEnd == x.end && m.savedTop == t.top
  }

  /** A compile into a hole that threw while the limit was set leaves words, top and
      holes exactly as they were. */
  lemma ThrowInHole(t: Text, own: seq<Owner>, regs: seq<Hole>, x: Hole, u: Text, m: Mark)
    requires TextInv(t, own, regs) && Listed(t.holes, x) && ThrewInHole(t, x, m) && Emitted(InHole(t, x), u)
    ensures var (t1, m1) := RestoreTop(u, m); GiveBack(t1, m1) == t
  {
    ListedCells(t.holes, own, x);
    var words := Filled(u.words, x.start, u.top + 1, Filler);
    forall w | 0 <= w < |words| ensures words[w] == t.words[w] {
      assert x.start <= w < u.top + 1 ==> In(x, w);
    }
    assert words == t.words;
    if u.top == x.start - 1 {
      assert u.words == t.words;
    }
  }

  /** One that threw after its hole was shrunk loses its words: they hold the
      filler but no hole lists them. */
  lemma ThrowAfterHole(t: Text, own: seq<Owner>, regs: seq<Hole>, x: Hole, u: Text, m: Mark)
    requires TextInv(t, own, regs) && Listed(t.holes, x) && ThrewInHole(t, x, m) && Emitted(InHole(t, x), u)
    ensures var (t1, m1) := LeaveHole(u, m); var own' := Marked(own, x.start, u.top + 1, LostCell);
      && TextInv(GiveBack(t1, m1), own', regs + [Hole(0, 0)])
      && forall w :: 0 <= w < |own| && own[w].Of? ==> own'[w] == own[w]
  {
    ThrowInHole(t, own, regs, x, u, m);
    var (t0, m0) := RestoreTop(u, m);
    var (t1, m1) := LeaveHole(u, m);
    ListedCells(t.holes, own, x);
    var end := u.top + 1;
    assert GiveBack(t1, m1) == GiveBack(t0, m0).(holes := Carve(t.holes, x.start, end));
    LostWords(t, own, regs, x, end);
  }

  lemma LostWords(t: Text, own: seq<Owner>, regs: seq<Hole>, x: Hole, end: int)
    requires TextInv(t, own, regs) && Listed(t.holes, x) && x.start <= end <= x.end
    ensures var own' := Marked(own, x.start, end, LostCell);
      && TextInv(t.(holes := Carve(t.holes, x.start, end)), own', regs + [Hole(0, 0)])
      && forall w :: 0 <= w < |own| && own[w].Of? ==> own'[w] == own[w]
  {
    var own' := Marked(own, x.start, end, LostCell);
    ListedCells(t.holes, own, x);
    assert In(x, x.start) && forall w :: x.start <= w < end ==> In(x, w);
    CarvedLists(t.holes, own, x, end, LostCell);
    OwnedAddsEmpty(own, |own|, regs);
    assert own[..|own|] == own;
    OwnedSame(own, own', regs + [Hole(0, 0)]);
  }

  // ---------- moving a wrapper into a hole ----------

  lemma AbsorbOnce(h: seq<Hole>, limit: int)
    requires Canonical(h) && h != [] && h[|h| - 1].end == limit
    ensures Absorb(h, limit) == (h[..|h| - 1], h[|h| - 1].start)
  {
  }

  /** debugger_move_into_hole picks hole x while the wrapper is still compiled at
      the top, then releases that copy. The hole is still listed afterwards
      exactly when it did not end where the copy began. */
  lemma MoveKeepsHole(t: Text, own: seq<Owner>, regs: seq<Hole>, k: nat, m: Mark, x: Hole)
    requires TextInv(t, own, regs) && k < |regs| && Holds(m, regs[k])
    requires !m.inHole && t.top == m.textEnd && Listed(t.holes, x)
    ensures Listed(GiveBack(t, m).holes, x) <==> x.end != m.textStart + 1
  {
    var h := t.holes;
    var i :| 0 <= i < |h| && h[i] == x;
    HolesBelow(t, own, regs, k, m);
    if h[|h| - 1].end == m.textStart + 1 {
      AbsorbOnce(h, m.textStart + 1);
      assert forall j :: 0 <= j < |h| - 1 ==> h[..|h| - 1][j] == h[j];
    }
  }

  lemma HolesBelow(t: Text, own: seq<Owner>, regs: seq<Hole>, k: nat, m: Mark)
    requires TextInv(t, own, regs) && k < |regs| && Holds(m, regs[k]) && t.top == m.textEnd
    ensures forall i :: 0 <= i < |t.holes| ==> 0 < t.holes[i].start && t.holes[i].end <= m.textStart + 1
  {
    RegionCells(own, regs, k);
    FreedLists(t.holes, own, regs[k]);
    forall i | 0 <= i < |t.holes| ensures 0 < t.holes[i].start && t.holes[i].end <= m.textStart + 1 {
      ListedCells(t.holes, own, t.holes[i]);
      assert In(t.holes[i], t.holes[i].start);
    }
  }

  /** Compiled into a hole that is gone, the wrapper ends up above the top: no
      split of the words owns it any more. */
  lemma MoveIntoAbsorbedHole(t: Text, own: seq<Owner>, regs: seq<Hole>, k: nat, m: Mark, x: Hole, u: Text)
    requires TextInv(t, own, regs) && k < |regs| && Holds(m, regs[k])
    requires !m.inHole && t.top == m.textEnd && Listed(t.holes, x) && x.end == m.textStart + 1
    requires Emitted(GiveBack(t, m).(top := x.start - 1, limit := x.end), u) && x.start <= u.top
    ensures var (t2, m2) := Finish(u, Begin(GiveBack(t, m), x.start, x.end, 1).1, false);
      && Holds(m2, Hole(x.start, u.top + 1)) && t2.top == x.start - 1
      && forall own2, regs2, i :: 0 <= i < |regs2| && regs2[i] == Hole(x.start, u.top + 1) ==> !TextInv(t2, own2, regs2)
  {
    var h := t.holes;
    var i :| 0 <= i < |h| && h[i] == x;
    HolesBelow(t, own, regs, k, m);
    assert h[|h| - 1].end <= x.end && i == |h| - 1;
    AbsorbOnce(h, m.textStart + 1);
    assert GiveBack(t, m).top == x.start - 1;
    assert In(Hole(x.start, u.top + 1), u.top);
  }

  /** Why a compile that threw is to be released before the next one starts: an un-ended
      mark reads its end from the top of the moment, so a later release takes every word
      compiled above it since, and of the words in use exactly those. */
  lemma LateReleaseTakesLive(t: Text, own: seq<Owner>, regs: seq<Hole>, m: Mark, w: int)
    requires TextInv(t, own, regs) && 0 <= w < |own| && own[w] != FreeCell
    requires !m.ended && !m.inHole && 0 <= m.textStart <= t.top
    ensures GiveBack(t, m).top < w <==> m.textStart < w
  {
    AbsorbSinks(t.holes, m.textStart + 1);
  }
}
