/** Reclaimed space kept as a list of holes (src/codegen_func.c, the text and
    data twins of add/absorb/find/leave). Text holes and data holes run the same
    code, so one set of operations serves both. The lists are realloc'd arrays in
    the source and sequences here. */
module Holes {

  /** A run of reclaimed cells, [start, end). */
  datatype Hole = Hole(start: int, end: int)

  /** Sorted, non-empty and never adjacent: the canonical form of a free set. */
  ghost predicate Canonical(h: seq<Hole>) {
    && (forall i :: 0 <= i < |h| ==> h[i].start < h[i].end)
    && (forall i, j :: 0 <= i < j < |h| ==> h[i].end < h[j].start)
  }

  ghost predicate Within(h: seq<Hole>, lo: int, hi: int) {
    forall i :: 0 <= i < |h| ==> lo <= h[i].start && h[i].end <= hi
  }

  ghost predicate Free(h: seq<Hole>, w: int) {
    exists i :: 0 <= i < |h| && h[i].start <= w < h[i].end
  }

  /** No cell of [s, e) is free already. */
  ghost predicate Taken(h: seq<Hole>, s: int, e: int) {
    forall i :: 0 <= i < |h| ==> h[i].end <= s || e <= h[i].start
  }

  lemma HeadAgrees(a: seq<Hole>, b: seq<Hole>)
    requires Canonical(a) && Canonical(b)
    requires forall w :: Free(a, w) <==> Free(b, w)
    requires a != []
    ensures b != [] && a[0].start == b[0].start && a[0].end <= b[0].end
  {
    assert Free(a, a[0].start);
    assert b != [];
    assert Free(b, b[0].start);
    assert !Free(b, b[0].end);
    assert !Free(a, b[0].end);
    assert !(a[0].start <= b[0].end < a[0].end);
  }

  lemma TailFree(h: seq<Hole>, w: int)
    requires Canonical(h) && h != []
    ensures Canonical(h[1..])
    ensures Free(h[1..], w) <==> Free(h, w) && h[0].end <= w
  {
    if Free(h, w) && h[0].end <= w {
      var i :| 0 <= i < |h| && h[i].start <= w < h[i].end;
      assert h[1..][i - 1] == h[i];
    }
    if Free(h[1..], w) {
      var i :| 0 <= i < |h[1..]| && h[1..][i].start <= w < h[1..][i].end;
      assert h[i + 1] == h[1..][i];
    }
  }

  /** A canonical list is determined by the cells it covers: two lists that free
      the same cells are the same list. */
  lemma {:induction false} CanonicalUnique(a: seq<Hole>, b: seq<Hole>)
    requires Canonical(a) && Canonical(b)
    requires forall w :: Free(a, w) <==> Free(b, w)
    ensures a == b
  {
    if a == [] {
      if b != [] { HeadAgrees(b, a); }
    } else {
      HeadAgrees(a, b);
      HeadAgrees(b, a);
      assert a[0] == b[0];
      forall w ensures Free(a[1..], w) <==> Free(b[1..], w) {
        TailFree(a, w);
        TailFree(b, w);
      }
      TailFree(a, 0);
      TailFree(b, 0);
      CanonicalUnique(a[1..], b[1..]);
      assert a == [a[0]] + a[1..] && b == [b[0]] + b[1..];
    }
  }

  /** The reference insertion: one recursive walk, merging where ranges touch. */
  function Insert(h: seq<Hole>, s: int, e: int): seq<Hole> {
    if h == [] then [Hole(s, e)]
    else if h[0].end < s then [h[0]] + Insert(h[1..], s, e)
    else if h[0].end == s then
      if |h| > 1 && h[1].start == e then [Hole(h[0].start, h[1].end)] + h[2..]
      else [Hole(h[0].start, e)] + h[1..]
    else if h[0].start == e then [Hole(s, h[0].end)] + h[1..]
    else [Hole(s, e)] + h
  }

  lemma FreeSplit(a: seq<Hole>, b: seq<Hole>, w: int)
    ensures Free(a + b, w) <==> Free(a, w) || Free(b, w)
  {
    var c := a + b;
    if Free(a, w) {
      var i :| 0 <= i < |a| && a[i].start <= w < a[i].end;
      assert c[i] == a[i];
    }
    if Free(b, w) {
      var i :| 0 <= i < |b| && b[i].start <= w < b[i].end;
      assert c[|a| + i] == b[i];
    }
    if Free(c, w) {
      var i :| 0 <= i < |c| && c[i].start <= w < c[i].end;
      if i < |a| { assert a[i] == c[i]; } else { assert b[i - |a|] == c[i]; }
    }
  }

  lemma FreeOne(x: Hole, w: int)
    ensures Free([x], w) <==> x.start <= w < x.end
  {
    if x.start <= w < x.end { assert [x][0] == x; }
  }

  lemma InsertedFree(h: seq<Hole>, x: seq<Hole>, i: nat, j: nat, k: Hole, w: int)
    requires 0 <= i <= j <= |h| && x == h[..i] + [k] + h[j..]
    ensures Free(x, w) <==> Free(h[..i], w) || k.start <= w < k.end || Free(h[j..], w)
  {
    FreeSplit(h[..i] + [k], h[j..], w);
    FreeSplit(h[..i], [k], w);
    FreeOne(k, w);
  }

  lemma CutFree(h: seq<Hole>, i: nat, j: nat, w: int)
    requires i <= j <= |h|
    ensures Free(h, w) <==> Free(h[..i], w) || Free(h[i..j], w) || Free(h[j..], w)
  {
    assert h == h[..i] + h[i..j] + h[j..];
    FreeSplit(h[..i] + h[i..j], h[j..], w);
    FreeSplit(h[..i], h[i..j], w);
  }

  lemma RunOf(h: seq<Hole>, i: nat, w: int)
    requires i <= |h|
    ensures !Free(h[i..i], w)
    ensures i + 1 <= |h| ==> (Free(h[i..i + 1], w) <==> h[i].start <= w < h[i].end)
    ensures i + 2 <= |h| ==>
        (Free(h[i..i + 2], w) <==> h[i].start <= w < h[i].end || h[i + 1].start <= w < h[i + 1].end)
  {
    if i + 1 <= |h| {
      assert h[i..i + 1] == [h[i]];
      FreeOne(h[i], w);
    }
    if i + 2 <= |h| {
      assert h[i..i + 2] == [h[i]] + [h[i + 1]];
      FreeSplit([h[i]], [h[i + 1]], w);
      FreeOne(h[i], w);
      FreeOne(h[i + 1], w);
    }
  }

  /** [s, e) joined with the holes [i, j) of h that it touches. */
  ghost predicate Joins(h: seq<Hole>, s: int, e: int, i: nat, j: nat, k: Hole)
    requires i <= j <= |h|
  {
    || (j == i && k == Hole(s, e))
    || (j == i + 1 && h[i].end == s && k == Hole(h[i].start, e))
    || (j == i + 1 && h[i].start == e && k == Hole(s, h[i].end))
    || (j == i + 2 && h[i].end == s && h[i + 1].start == e && k == Hole(h[i].start, h[i + 1].end))
  }

  lemma ReplacedCanonical(h: seq<Hole>, i: nat, j: nat, k: Hole)
    requires Canonical(h) && i <= j <= |h| && k.start < k.end
    requires i > 0 ==> h[i - 1].end < k.start
    requires j < |h| ==> k.end < h[j].start
    ensures Canonical(h[..i] + [k] + h[j..])
  {
    var x := h[..i] + [k] + h[j..];
    assert forall m :: 0 <= m < i ==> x[m] == h[m] && x[m].end < k.start;
    assert forall m :: i < m < |x| ==> x[m] == h[m - i - 1 + j] && k.end < x[m].start;
  }

  lemma ReplacedFree(h: seq<Hole>, s: int, e: int, i: nat, j: nat, k: Hole, w: int)
    requires Canonical(h) && s < e && i <= j <= |h|
    requires Joins(h, s, e, i, j, k)
    ensures Free(h[..i] + [k] + h[j..], w) <==> Free(h, w) || s <= w < e
  {
    InsertedFree(h, h[..i] + [k] + h[j..], i, j, k, w);
    CutFree(h, i, j, w);
    RunOf(h, i, w);
  }

  lemma Replaced(h: seq<Hole>, s: int, e: int, i: nat, j: nat, k: Hole)
    requires Canonical(h) && s < e && i <= j <= |h|
    requires Joins(h, s, e, i, j, k)
    requires i > 0 ==> h[i - 1].end < k.start
    requires j < |h| ==> k.end < h[j].start
    ensures Canonical(h[..i] + [k] + h[j..])
    ensures forall w :: Free(h[..i] + [k] + h[j..], w) <==> Free(h, w) || s <= w < e
  {
    ReplacedCanonical(h, i, j, k);
    forall w ensures Free(h[..i] + [k] + h[j..], w) <==> Free(h, w) || s <= w < e {
      ReplacedFree(h, s, e, i, j, k, w);
    }
  }

  lemma InsertHere(h: seq<Hole>, s: int, e: int)
    requires Canonical(h) && s < e && Taken(h, s, e)
    requires h != [] && s <= h[0].end
    ensures Canonical(Insert(h, s, e))
    ensures forall w :: Free(Insert(h, s, e), w) <==> Free(h, w) || s <= w < e
  {
    if h[0].end == s {
      if |h| > 1 && h[1].start == e {
        Replaced(h, s, e, 0, 2, Hole(h[0].start, h[1].end));
        assert Insert(h, s, e) == h[..0] + [Hole(h[0].start, h[1].end)] + h[2..];
      } else {
        Replaced(h, s, e, 0, 1, Hole(h[0].start, e));
        assert Insert(h, s, e) == h[..0] + [Hole(h[0].start, e)] + h[1..];
      }
    } else if h[0].start == e {
      Replaced(h, s, e, 0, 1, Hole(s, h[0].end));
      assert Insert(h, s, e) == h[..0] + [Hole(s, h[0].end)] + h[1..];
    } else {
      Replaced(h, s, e, 0, 0, Hole(s, e));
      assert Insert(h, s, e) == h[..0] + [Hole(s, e)] + h[0..];
    }
  }

  lemma ConsFree(x: Hole, y: seq<Hole>, w: int)
    ensures Free([x] + y, w) <==> x.start <= w < x.end || Free(y, w)
  {
    FreeSplit([x], y, w);
    FreeOne(x, w);
  }

  lemma AboveTail(h: seq<Hole>, s: int, e: int, y: seq<Hole>, i: nat)
    requires Canonical(h) && h != [] && h[0].end < s < e
    requires Canonical(y) && i < |y|
    requires forall w :: Free(y, w) <==> Free(h[1..], w) || s <= w < e
    ensures h[0].end < y[i].start
  {
    assert Free(y, y[i].start);
    TailFree(h, y[i].start);
    if Free(h[1..], y[i].start) {
      var j :| 0 <= j < |h[1..]| && h[1..][j].start <= y[i].start < h[1..][j].end;
      assert h[j + 1] == h[1..][j];
    }
  }

  /** Insertion adds exactly the cells [s, e) and keeps the list canonical. */
  lemma {:induction false} InsertAdds(h: seq<Hole>, s: int, e: int)
    requires Canonical(h) && s < e && Taken(h, s, e)
    ensures Canonical(Insert(h, s, e))
    ensures forall w :: Free(Insert(h, s, e), w) <==> Free(h, w) || s <= w < e
  {
    if h == [] {
      forall w ensures Free(Insert(h, s, e), w) <==> s <= w < e { FreeOne(Hole(s, e), w); }
    } else if h[0].end < s {
      TailFree(h, 0);
      InsertAdds(h[1..], s, e);
      var y := Insert(h[1..], s, e);
      forall i | 0 <= i < |y| ensures h[0].end < y[i].start { AboveTail(h, s, e, y, i); }
      assert h == [h[0]] + h[1..];
      forall w ensures Free([h[0]] + y, w) <==> Free(h, w) || s <= w < e {
        ConsFree(h[0], y, w);
        ConsFree(h[0], h[1..], w);
      }
    } else {
      InsertHere(h, s, e);
    }
  }

  lemma SpliceParts(h: seq<Hole>, p: nat, j: nat, k: Hole, r: seq<Hole>)
    requires p <= j <= |h| && r == h[..p] + [k] + h[j..]
    ensures |r| == p + 1 + |h| - j && r[p] == k && r[..p] == h[..p]
    ensures j < |h| ==> r[p + 1] == h[j] && r[p + 2..] == h[j + 1..]
  {
  }

  lemma ScanEnd(h: seq<Hole>, s: int, e: int, i: nat)
    requires Canonical(h) && s < e && Taken(h, s, e) && i <= |h|
    requires i > 0 ==> h[i - 1].start < s
    requires i < |h| ==> s <= h[i].start
    ensures i > 0 ==> h[i - 1].end <= s
    ensures i < |h| ==> e <= h[i].start
  {
  }

  /** add_text_hole / add_data_hole: scan for the place, merge left or insert,
      then merge right. */
  method AddHole(h: seq<Hole>, start: int, end: int) returns (r: seq<Hole>)
    requires Canonical(h) && start < end && Taken(h, start, end)
    ensures r == Insert(h, start, end)
  {
    var i := 0;
    while i < |h| && h[i].start < start
      invariant 0 <= i <= |h|
      invariant i > 0 ==> h[i - 1].start < start
    {
      i := i + 1;
    }
    ScanEnd(h, start, end, i);
    ghost var j := i;
    if i > 0 && h[i - 1].end == start {
      i := i - 1;
      r := h[..i] + [h[i].(end := end)] + h[i + 1..];
    } else {
      r := h[..i] + [Hole(start, end)] + h[i..];
    }
    ghost var k := r[i];
    SpliceParts(h, i, j, k, r);
    if i + 1 < |r| && r[i].end == r[i + 1].start {
      r := r[..i] + [r[i].(end := r[i + 1].end)] + r[i + 2..];
      k := k.(end := h[j].end);
      j := j + 1;
    }
    SplicedIsInsert(h, start, end, i, j, k);
  }

  lemma SplicedIsInsert(h: seq<Hole>, s: int, e: int, i: nat, j: nat, k: Hole)
    requires Canonical(h) && s < e && Taken(h, s, e) && i <= j <= |h|
    requires Joins(h, s, e, i, j, k)
    requires i > 0 && j <= i + 1 && k.start == s ==> h[i - 1].end < s
    requires j < |h| && k.end == e ==> e < h[j].start
    ensures h[..i] + [k] + h[j..] == Insert(h, s, e)
  {
    Replaced(h, s, e, i, j, k);
    InsertAdds(h, s, e);
    CanonicalUnique(h[..i] + [k] + h[j..], Insert(h, s, e));
  }

  /** Hole i is the smallest that fits, and the first of that length. */
  ghost predicate BestAt(h: seq<Hole>, size: int, best: Hole, i: int)
    requires 0 <= i < |h|
  {
    && best == h[i]
    && forall j :: 0 <= j < |h| && h[j].end - h[j].start >= size ==>
         && best.end - best.start <= h[j].end - h[j].start
         && (j < i ==> best.end - best.start < h[j].end - h[j].start)
  }

  /** cc_text_hole_find / cc_data_hole_find: best fit, the lowest one on a tie. */
  method FindHole(h: seq<Hole>, size: int) returns (found: bool, best: Hole)
    ensures found <==> exists i :: 0 <= i < |h| && h[i].end - h[i].start >= size
    ensures found ==> best.end - best.start >= size && exists i :: 0 <= i < |h| && BestAt(h, size, best, i)
  {
    found, best := false, Hole(0, 0);
    ghost var at := 0;
    for i := 0 to |h|
      invariant found ==> 0 <= at < i && best == h[at] && best.end - best.start >= size
      invariant found <==> exists j :: 0 <= j < i && h[j].end - h[j].start >= size
      invariant forall j :: 0 <= j < i && h[j].end - h[j].start >= size ==>
        && best.end - best.start <= h[j].end - h[j].start
        && (j < at ==> best.end - best.start < h[j].end - h[j].start)
    {
      if h[i].end - h[i].start < size || (found && h[i].end - h[i].start >= best.end - best.start) {
        continue;
      }
      best, found, at := h[i], true, i;
    }
    assert found ==> BestAt(h, size, best, at);
  }

  /** The list without the cells [start, cursor) of the hole that begins at start. */
  function Carve(h: seq<Hole>, start: int, cursor: int): seq<Hole> {
    if h == [] then []
    else if h[0].start != start then [h[0]] + Carve(h[1..], start, cursor)
    else if cursor >= h[0].end then h[1..]
    else [h[0].(start := cursor)] + h[1..]
  }

  ghost predicate Listed(h: seq<Hole>, x: Hole) {
    exists i :: 0 <= i < |h| && h[i] == x
  }

  lemma {:induction false} CarveAt(h: seq<Hole>, i: nat, cursor: int)
    requires i < |h| && forall j :: 0 <= j < i ==> h[j].start != h[i].start
    ensures Carve(h, h[i].start, cursor) ==
      if cursor >= h[i].end then h[..i] + h[i + 1..] else h[..i] + [Hole(cursor, h[i].end)] + h[i + 1..]
  {
    if i > 0 {
      var t := h[1..];
      CarveAt(t, i - 1, cursor);
      assert t[i - 1] == h[i];
      assert h[..i] == [h[0]] + t[..i - 1] && h[i + 1..] == t[i..];
    }
  }

  lemma {:induction false} CarveMissing(h: seq<Hole>, start: int, cursor: int)
    requires forall i :: 0 <= i < |h| ==> h[i].start != start
    ensures Carve(h, start, cursor) == h
  {
    if h != [] {
      CarveMissing(h[1..], start, cursor);
    }
  }

  /** Carving takes exactly [x.start, cursor) off the hole x. */
  lemma CarveTakes(h: seq<Hole>, x: Hole, cursor: int)
    requires Canonical(h) && Listed(h, x) && x.start <= cursor <= x.end
    ensures Canonical(Carve(h, x.start, cursor))
    ensures forall w :: Free(Carve(h, x.start, cursor), w) <==> Free(h, w) && !(x.start <= w < cursor)
  {
    CarveCanonical(h, x, cursor);
    forall w ensures Free(Carve(h, x.start, cursor), w) <==> Free(h, w) && !(x.start <= w < cursor) {
      CarveFrees(h, x, cursor, w);
    }
  }

  lemma CarveCanonical(h: seq<Hole>, x: Hole, cursor: int)
    requires Canonical(h) && Listed(h, x) && x.start <= cursor <= x.end
    ensures Canonical(Carve(h, x.start, cursor))
  {
    var i :| 0 <= i < |h| && h[i] == x;
    CarveAt(h, i, cursor);
    if cursor < x.end { ReplacedCanonical(h, i, i + 1, Hole(cursor, x.end)); }
  }

  lemma CarveFrees(h: seq<Hole>, x: Hole, cursor: int, w: int)
    requires Canonical(h) && Listed(h, x) && x.start <= cursor <= x.end
    ensures Free(Carve(h, x.start, cursor), w) <==> Free(h, w) && !(x.start <= w < cursor)
  {
    var i :| 0 <= i < |h| && h[i] == x;
    CarveCell(h, i, cursor, w);
  }

  lemma CarveCell(h: seq<Hole>, i: nat, cursor: int, w: int)
    requires Canonical(h) && i < |h| && h[i].start <= cursor <= h[i].end
    requires forall j :: 0 <= j < i ==> h[j].start != h[i].start
    ensures Free(Carve(h, h[i].start, cursor), w) <==> Free(h, w) && !(h[i].start <= w < cursor)
  {
    CarveAt(h, i, cursor);
    CutFree(h, i, i + 1, w);
    RunOf(h, i, w);
    if h[i].start <= w < h[i].end { CarveApart(h, i, w); }
    if cursor == h[i].end {
      FreeSplit(h[..i], h[i + 1..], w);
    } else {
      InsertedFree(h, h[..i] + [Hole(cursor, h[i].end)] + h[i + 1..], i, i + 1, Hole(cursor, h[i].end), w);
    }
  }

  lemma CarveApart(h: seq<Hole>, i: nat, w: int)
    requires Canonical(h) && i < |h| && h[i].start <= w < h[i].end
    ensures !Free(h[..i], w) && !Free(h[i + 1..], w)
  {
  }

  /** leave_text_hole / shrink_data_hole. */
  method ShrinkHole(h: seq<Hole>, start: int, cursor: int) returns (r: seq<Hole>)
    requires Canonical(h)
    ensures r == Carve(h, start, cursor)
  {
    for i := 0 to |h|
      invariant forall j :: 0 <= j < i ==> h[j].start != start
    {
      if h[i].start != start { continue; }
      CarveAt(h, i, cursor);
      r := h[i := h[i].(start := cursor)];
      if r[i].start >= r[i].end {
        r := r[..i] + r[i + 1..];
      }
      return;
    }
    CarveMissing(h, start, cursor);
    r := h;
  }

  /** The list and the limit once every hole ending at the limit was taken back. */
  function Absorb(h: seq<Hole>, limit: int): (seq<Hole>, int) {
    if h == [] || h[|h| - 1].end != limit then (h, limit)
    else Absorb(h[..|h| - 1], h[|h| - 1].start)
  }

  /** The limit never rises, wherever it starts, and passes free cells only. */
  lemma {:induction false} AbsorbSinks(h: seq<Hole>, limit: int)
    requires Canonical(h)
    ensures Absorb(h, limit).1 <= limit
    ensures forall w :: Absorb(h, limit).1 <= w < limit ==> Free(h, w)
    decreases |h|
  {
    if h != [] && h[|h| - 1].end == limit {
      AbsorbSinks(h[..|h| - 1], h[|h| - 1].start);
      assert forall w :: h[|h| - 1].start <= w < limit ==> Free(h, w);
    }
  }

  /** Absorbing lowers the limit through free cells only, stops at a taken one
      and leaves exactly the free cells below. */
  lemma {:induction false} AbsorbTakes(h: seq<Hole>, limit: int)
    requires Canonical(h) && Within(h, 0, limit)
    ensures var (r, l) := Absorb(h, limit);
      && l <= limit && r <= h && Canonical(r)
      && (forall w :: l <= w < limit ==> Free(h, w))
      && (forall w :: Free(r, w) <==> Free(h, w) && w < l)
      && (forall i :: 0 <= i < |r| ==> r[i].end < l)
  {
    if h != [] && h[|h| - 1].end == limit {
      var last := h[|h| - 1];
      AbsorbTakes(h[..|h| - 1], last.start);
      assert h == h[..|h| - 1] + [last];
      forall w ensures Free(h, w) <==> Free(h[..|h| - 1], w) || last.start <= w < last.end {
        FreeSplit(h[..|h| - 1], [last], w);
        FreeOne(last, w);
      }
    }
  }

  /** absorb_text_holes / absorb_data_holes. */
  method AbsorbHoles(h: seq<Hole>, limit: int) returns (r: seq<Hole>, l: int)
    ensures (r, l) == Absorb(h, limit)
  {
    r, l := h, limit;
    while |r| > 0
      invariant Absorb(h, limit) == Absorb(r, l)
    {
      var last := r[|r| - 1];
      if last.end != l { break; }
      l := last.start;
      r := r[..|r| - 1];
    }
  }
}
