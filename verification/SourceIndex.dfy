/** The debugger's (file, line) index (src/bytecode.c:22-101) and the lookup that uses
    it (src/debugger.c:1214-1254): runs of one line collected from the source map,
    sorted by any sort, and compacted in place. */
module SourceIndex {
  import opened Common
  import opened SourceMap

  /** An index entry: a source line and the first pc of its code. */
  datatype Line = Line(file: nat, line: int, pc: int)

  predicate SameKey(a: Line, b: Line) {
    a.file == b.file && a.line == b.line
  }

  /** source_index_cmp. */
  function Compare(a: Line, b: Line): int {
    if a.file != b.file then if a.file < b.file then -1 else 1
    else if a.line < b.line then -1 else if a.line > b.line then 1 else 0
  }

  ghost predicate Sorted(s: seq<Line>) {
    forall i, j :: 0 <= i < j < |s| ==> Compare(s[i], s[j]) <= 0
  }

  ghost predicate StrictlySorted(s: seq<Line>) {
    forall i, j :: 0 <= i < j < |s| ==> Compare(s[i], s[j]) < 0
  }

  // ---------- the specification ----------

  /** A replaced function's code, [start, end). */
  type Body = (int, int)

  ghost predicate Replaced(bodies: seq<Body>, pc: int) {
    exists i :: 0 <= i < |bodies| && bodies[i].0 <= pc < bodies[i].1
  }

  function LineOf(e: Entry): Line {
    Line(e.file, e.line, e.pc)
  }

  /** The entry the fill loop starts out comparing with. */
  predicate IsNone(e: Entry) {
    e.file == 0 && e.line == -1
  }

  /** The entries the index is about, in map order: those outside replaced bodies,
      without a leading run that has no file. */
  ghost function Indexed(m: seq<Entry>, bodies: seq<Body>): seq<Line> {
    if m == [] then []
    else
      var n := |m| - 1;
      var d := Indexed(m[..n], bodies);
      if Replaced(bodies, m[n].pc) || (d == [] && IsNone(m[n])) then d else d + [LineOf(m[n])]
  }

  /** Entry i counts: it is outside replaced bodies, and some entry up to it has a file or
      a line. */
  ghost predicate Counts(m: seq<Entry>, bodies: seq<Body>, i: nat) {
    && i < |m| && !Replaced(bodies, m[i].pc)
    && exists j :: 0 <= j <= i && !Replaced(bodies, m[j].pc) && (m[j].file != 0 || m[j].line != -1)
  }

  /** The lines of entries that count are exactly those Indexed lists. */
  lemma {:induction false} IndexedIs(m: seq<Entry>, bodies: seq<Body>)
    ensures Indexed(m, bodies) != [] <==> exists i: nat :: Counts(m, bodies, i)
    ensures forall x :: x in Indexed(m, bodies) <==> exists i: nat :: Counts(m, bodies, i) && LineOf(m[i]) == x
    decreases |m|
  {
    if m != [] {
      var n := |m| - 1;
      var m' := m[..n];
      IndexedIs(m', bodies);
      CountsLast(m, m', bodies);
      forall i: nat ensures Counts(m', bodies, i) <==> i < n && Counts(m, bodies, i) {
        if i < n { CountsPrefix(m, bodies, i); }
      }
      forall x ensures x in Indexed(m, bodies) <==> exists i: nat :: Counts(m, bodies, i) && LineOf(m[i]) == x {
        IndexedHas(m, bodies, x);
      }
      if i: nat :| Counts(m, bodies, i) {
        assert LineOf(m[i]) in Indexed(m, bodies);
      }
      if Indexed(m, bodies) != [] {
        assert Indexed(m, bodies)[0] in Indexed(m, bodies);
      }
    }
  }

  lemma CountsLast(m: seq<Entry>, m': seq<Entry>, bodies: seq<Body>)
    requires m != [] && m' == m[..|m| - 1]
    requires Indexed(m', bodies) != [] <==> exists i: nat :: Counts(m', bodies, i)
    ensures var n := |m| - 1;
            Counts(m, bodies, n) <==>
            !Replaced(bodies, m[n].pc) && (Indexed(m[..n], bodies) != [] || !IsNone(m[n]))
  {
    var n := |m| - 1;
    if Indexed(m', bodies) != [] {
      var i: nat :| Counts(m', bodies, i);
      var j :| 0 <= j <= i && !Replaced(bodies, m'[j].pc) && (m'[j].file != 0 || m'[j].line != -1);
      assert m[j] == m'[j];
    } else if Counts(m, bodies, n) && IsNone(m[n]) {
      var j: nat :| j <= n && !Replaced(bodies, m[j].pc) && (m[j].file != 0 || m[j].line != -1);
      assert m[j] == m'[j];
      assert Counts(m', bodies, j);
    }
  }

  lemma IndexedHas(m: seq<Entry>, bodies: seq<Body>, x: Line)
    requires m != []
    requires var n := |m| - 1;
             && (Counts(m, bodies, n) <==>
               !Replaced(bodies, m[n].pc) && (Indexed(m[..n], bodies) != [] || !IsNone(m[n])))
             && (forall i: nat :: Counts(m[..n], bodies, i) <==> i < n && Counts(m, bodies, i))
             && (x in Indexed(m[..n], bodies) <==> exists i: nat :: Counts(m[..n], bodies, i) && LineOf(m[..n][i]) == x)
    ensures x in Indexed(m, bodies) <==> exists i: nat :: Counts(m, bodies, i) && LineOf(m[i]) == x
  {
    var n := |m| - 1;
    var m' := m[..n];
    if x in Indexed(m', bodies) {
      var i: nat :| Counts(m', bodies, i) && LineOf(m'[i]) == x;
      assert Counts(m, bodies, i) && m[i] == m'[i];
    }
    if i: nat :| Counts(m, bodies, i) && LineOf(m[i]) == x {
      if i < n { assert Counts(m', bodies, i) && m'[i] == m[i]; }
    }
  }

  lemma CountsPrefix(m: seq<Entry>, bodies: seq<Body>, i: nat)
    requires m != [] && i < |m| - 1
    ensures Counts(m, bodies, i) <==> Counts(m[..|m| - 1], bodies, i)
  {
    var m' := m[..|m| - 1];
    if Counts(m, bodies, i) {
      var j :| 0 <= j <= i && !Replaced(bodies, m[j].pc) && (m[j].file != 0 || m[j].line != -1);
      assert m'[j] == m[j];
    }
    if Counts(m', bodies, i) {
      var j :| 0 <= j <= i && !Replaced(bodies, m'[j].pc) && (m'[j].file != 0 || m'[j].line != -1);
      assert m'[j] == m[j];
    }
  }

  predicate Under(a: Line, b: Line) {
    SameKey(a, b) && a.pc <= b.pc
  }

  /** Some line of t has b's key and no higher pc. */
  ghost predicate Lowest(t: seq<Line>, b: Line) {
    exists y :: y in t && Under(y, b)
  }

  /** t holds only lines of s, and for each line of s one with its key and no higher pc. */
  ghost predicate Summary(t: seq<Line>, s: seq<Line>) {
    && (forall x :: x in t ==> x in s)
    && (forall x {:trigger Lowest(t, x)} :: x in s ==> Lowest(t, x))
  }

  lemma SummaryTransitive(r: seq<Line>, t: seq<Line>, s: seq<Line>)
    requires Summary(r, t) && Summary(t, s)
    ensures Summary(r, s)
  {
    forall x ensures x in s ==> Lowest(r, x) {
      if x in s {
        assert Lowest(t, x);
        var y :| y in t && Under(y, x);
        assert Lowest(r, y);
        var z :| z in r && Under(z, y);
        assert Under(z, x);
      }
    }
  }

  lemma SummaryOfPermutation(t: seq<Line>, t': seq<Line>, s: seq<Line>)
    requires Summary(t, s) && multiset(t) == multiset(t')
    ensures Summary(t', s)
  {
    SameElements(t, t');
    forall x ensures x in s ==> Lowest(t', x) {
      if x in s {
        assert Lowest(t, x);
        var y :| y in t && Under(y, x);
        assert y in t';
      }
    }
  }

  lemma SameElements(t: seq<Line>, t': seq<Line>)
    requires multiset(t) == multiset(t')
    ensures forall x :: x in t <==> x in t'
  {
    assert forall x :: x in t <==> x in multiset(t);
    assert forall x :: x in t' <==> x in multiset(t');
  }

  lemma SameKeySameLine(index: seq<Line>, x: Line, y: Line)
    requires StrictlySorted(index) && x in index && y in index && SameKey(x, y)
    ensures x == y
  {
    var i :| 0 <= i < |index| && index[i] == x;
    var j :| 0 <= j < |index| && index[j] == y;
  }

  /** What a finished index says of every line it lists: its pc is that of an entry,
      and the least on that line. */
  lemma IndexMeans(index: seq<Line>, s: seq<Line>, y: Line)
    requires StrictlySorted(index) && Summary(index, s)
    ensures y in index <==> y in s && forall x :: x in s && SameKey(x, y) ==> y.pc <= x.pc
  {
    if y in index {
      forall x | x in s && SameKey(x, y) ensures y.pc <= x.pc {
        assert Lowest(index, x);
        var z :| z in index && Under(z, x);
        SameKeySameLine(index, z, y);
      }
    }
    if y in s && forall x :: x in s && SameKey(x, y) ==> y.pc <= x.pc {
      assert Lowest(index, y);
      var z :| z in index && Under(z, y);
    }
  }

  /** Whatever the sort did with equal keys, the index comes out the same. */
  lemma IndexUnique(a: seq<Line>, b: seq<Line>, s: seq<Line>)
    requires StrictlySorted(a) && StrictlySorted(b) && Summary(a, s) && Summary(b, s)
    ensures a == b
  {
    forall x ensures x in a <==> x in b {
      IndexMeans(a, s, x);
      IndexMeans(b, s, x);
    }
    SortedUnique(a, b);
  }

  lemma FirstIsLeast(a: seq<Line>, x: Line)
    requires StrictlySorted(a) && x in a
    ensures a[0] == x || Compare(a[0], x) < 0
  {
    var i :| 0 <= i < |a| && a[i] == x;
  }

  lemma {:induction false} SortedUnique(a: seq<Line>, b: seq<Line>)
    requires StrictlySorted(a) && StrictlySorted(b) && forall x :: x in a <==> x in b
    ensures a == b
    decreases |a|
  {
    if a != [] && b != [] {
      assert a[0] in b && b[0] in a;
      FirstIsLeast(a, b[0]);
      FirstIsLeast(b, a[0]);
      var a', b' := a[1..], b[1..];
      forall x ensures x in a' <==> x in b' {
        TailHas(a, x);
        TailHas(b, x);
      }
      SortedUnique(a', b');
      assert a == [a[0]] + a' && b == [b[0]] + b';
    } else if a != [] {
      NotEmpty(a, b);
    } else if b != [] {
      NotEmpty(b, a);
    }
  }

  lemma NotEmpty(a: seq<Line>, b: seq<Line>)
    requires a != [] && forall x :: x in a <==> x in b
    ensures b != []
  {
    assert a[0] in a;
  }

  lemma TailHas(a: seq<Line>, x: Line)
    requires a != [] && StrictlySorted(a)
    ensures x in a[1..] <==> x in a && x != a[0]
  {
    if x in a[1..] {
      var i :| 0 <= i < |a| - 1 && a[1..][i] == x;
      assert Compare(a[0], a[i + 1]) < 0;
    }
    if x in a && x != a[0] {
      var i :| 0 <= i < |a| && a[i] == x;
      assert a[1..][i - 1] == x;
    }
  }

  // ---------- the program ----------

  /** cc_pc_in_replaced_body. */
  method PcInReplacedBody(bodies: seq<Body>, pc: int) returns (found: bool)
    ensures found <==> Replaced(bodies, pc)
  {
    for i := 0 to |bodies|
      invariant forall j :: 0 <= j < i ==> !(bodies[j].0 <= pc < bodies[j].1)
    {
      if bodies[i].0 <= pc < bodies[i].1 { return true; }
    }
    found := false;
  }

  lemma SummaryMore(t: seq<Line>, s: seq<Line>, x: Line)
    requires Summary(t, s)
    ensures Summary(t + [x], s + [x])
    ensures t != [] && Under(t[|t| - 1], x) ==> Summary(t, s + [x])
  {
    forall y ensures y in s + [x] ==> Lowest(t + [x], y) {
      if y in s {
        assert Lowest(t, y);
        var z :| z in t && Under(z, y);
        assert z in t + [x];
      } else if y == x {
        assert x in t + [x] && Under(x, x);
      }
    }
    if t != [] && Under(t[|t| - 1], x) {
      forall y ensures y in s + [x] ==> Lowest(t, y) {
        if y in s { assert Lowest(t, y); }
      }
    }
  }

  /** The first pc of each run of one line, outside replaced bodies, in index[..count]. */
  method Fill(m: seq<Entry>, bodies: seq<Body>, index: array<Line>) returns (count: nat)
    requires SortedByPc(m) && |m| <= index.Length
    modifies index
    ensures count <= |m| && Summary(index[..count], Indexed(m, bodies))
  {
    count := 0;
    var lastFile, lastLine := 0, -1;
    for i := 0 to |m|
      invariant count <= i && Summary(index[..count], Indexed(m[..i], bodies))
      invariant count == 0 ==> lastFile == 0 && lastLine == -1 && Indexed(m[..i], bodies) == []
      invariant count > 0 ==> index[count - 1].file == lastFile && index[count - 1].line == lastLine
      invariant count > 0 ==> Indexed(m[..i], bodies) != [] && (i < |m| ==> index[count - 1].pc <= m[i].pc)
    {
      assert m[..i + 1][..i] == m[..i];
      var replaced := PcInReplacedBody(bodies, m[i].pc);
      ghost var t, s := index[..count], Indexed(m[..i], bodies);
      if !replaced {
        SummaryMore(t, s, LineOf(m[i]));
        if m[i].file != lastFile || m[i].line != lastLine {
          index[count] := LineOf(m[i]);
          count := count + 1;
          lastFile, lastLine := m[i].file, m[i].line;
          assert index[..count] == t + [LineOf(m[i])];
        }
      }
    }
    assert m[..|m|] == m;
  }

  // Any sort serves: the contract is all that the rest relies on.

  function Insert(x: Line, s: seq<Line>): seq<Line> {
    if s == [] || Compare(x, s[0]) <= 0 then [x] + s else [s[0]] + Insert(x, s[1..])
  }

  lemma {:induction false} InsertHas(x: Line, s: seq<Line>)
    ensures multiset(Insert(x, s)) == multiset(s) + multiset{x}
    ensures forall y :: y in Insert(x, s) <==> y == x || y in s
    decreases |s|
  {
    if s != [] {
      assert s == [s[0]] + s[1..];
      InsertHas(x, s[1..]);
    }
  }

  lemma {:induction false} InsertSorts(x: Line, s: seq<Line>)
    requires Sorted(s)
    ensures Sorted(Insert(x, s))
    decreases |s|
  {
    if s != [] && Compare(x, s[0]) > 0 {
      var t := Insert(x, s[1..]);
      InsertSorts(x, s[1..]);
      InsertHas(x, s[1..]);
      forall j | 0 <= j < |t| ensures Compare(s[0], t[j]) <= 0 {
        assert t[j] in t;
        if t[j] != x {
          var i :| 0 <= i < |s[1..]| && s[1..][i] == t[j];
          assert t[j] == s[i + 1];
        }
      }
    }
  }

  method SortedCopy(a: seq<Line>) returns (s: seq<Line>)
    ensures Sorted(s) && multiset(s) == multiset(a) && |s| == |a|
  {
    s := [];
    for i := 0 to |a|
      invariant Sorted(s) && multiset(s) == multiset(a[..i])
    {
      InsertSorts(a[i], s);
      InsertHas(a[i], s);
      s := Insert(a[i], s);
      assert a[..i + 1] == a[..i] + [a[i]];
    }
    assert a[..|a|] == a;
    assert |multiset(s)| == |s| && |multiset(a)| == |a|;
  }

  method Sort(index: array<Line>, count: nat)
    requires count <= index.Length
    modifies index
    ensures Sorted(index[..count]) && multiset(index[..count]) == multiset(old(index[..count]))
  {
    var s := SortedCopy(index[..count]);
    for i := 0 to count
      invariant index[..i] == s[..i]
    {
      index[i] := s[i];
    }
    assert index[..count] == s;
  }

  /** Equal keys merged in place: the slot written never passes the slot read. */
  method Dedup(index: array<Line>, count: nat) returns (kept: nat)
    requires count <= index.Length && Sorted(index[..count])
    modifies index
    ensures kept <= count && StrictlySorted(index[..kept]) && Summary(index[..kept], old(index[..count]))
  {
    ghost var s := index[..count];
    kept := 0;
    for i := 0 to count
      invariant kept <= i && (i > 0 ==> kept > 0)
      invariant forall k :: i <= k < count ==> index[k] == s[k]
      invariant StrictlySorted(index[..kept]) && Summary(index[..kept], s[..i])
      invariant kept > 0 && i < count ==> Compare(index[kept - 1], s[i]) <= 0
    {
      var cur := index[i];
      ghost var t := index[..kept];
      assert s[..i + 1] == s[..i] + [s[i]];
      if kept > 0 && SameKey(index[kept - 1], cur) {
        if cur.pc < index[kept - 1].pc {
          index[kept - 1] := index[kept - 1].(pc := cur.pc);
        }
        MergeLast(t, s[..i], cur);
        assert index[..kept] == Merged(t, cur);
      } else {
        AppendNext(t, cur);
        SummaryMore(t, s[..i], cur);
        index[kept] := cur;
        kept := kept + 1;
        assert index[..kept] == t + [cur];
      }
    }
    assert s[..count] == s;
  }

  function Merged(t: seq<Line>, x: Line): seq<Line>
    requires t != []
  {
    var n := |t| - 1;
    if x.pc < t[n].pc then t[..n] + [x] else t
  }

  lemma MergeLast(t: seq<Line>, s: seq<Line>, x: Line)
    requires t != [] && StrictlySorted(t) && Summary(t, s) && SameKey(t[|t| - 1], x)
    ensures StrictlySorted(Merged(t, x)) && Summary(Merged(t, x), s + [x])
  {
    var n, r := |t| - 1, Merged(t, x);
    SummaryMore(t, s, x);
    if x.pc < t[n].pc {
      forall y ensures y in s + [x] ==> Lowest(r, y) {
        assert x in r;
        if y in s {
          assert Lowest(t, y);
          var z :| z in t && Under(z, y);
          if z == t[n] { assert Under(x, y); } else { assert z in t[..n]; }
        } else if y == x {
          assert Under(x, x);
        }
      }
    }
  }

  lemma AppendNext(t: seq<Line>, x: Line)
    requires StrictlySorted(t)
    requires t != [] ==> Compare(t[|t| - 1], x) < 0
    ensures StrictlySorted(t + [x])
  {
    forall i | 0 <= i < |t| ensures Compare(t[i], x) < 0 {
      if i < |t| - 1 { assert Compare(t[i], t[|t| - 1]) < 0; }
    }
  }

  /** cc_build_source_index. */
  method BuildIndex(m: seq<Entry>, bodies: seq<Body>) returns (index: array<Line>, count: nat)
    requires SortedByPc(m)
    ensures count <= index.Length && StrictlySorted(index[..count])
    ensures Summary(index[..count], Indexed(m, bodies))
  {
    index := new Line[|m|](_ => Line(0, 0, 0));
    count := Fill(m, bodies, index);
    ghost var filled := index[..count];
    Sort(index, count);
    ghost var sorted := index[..count];
    SummaryOfPermutation(filled, sorted, Indexed(m, bodies));
    count := Dedup(index, count);
    SummaryTransitive(index[..count], sorted, Indexed(m, bodies));
  }

  /** cc_find_pc_for_source in a given file. */
  method FindPc(index: array<Line>, count: nat, file: nat, line: int) returns (pc: Option<int>)
    requires count <= index.Length && StrictlySorted(index[..count])
    ensures forall p :: pc == Some(p) <==> Line(file, line, p) in index[..count]
  {
    ghost var s := index[..count];
    var left, right := 0, count - 1;
    while left <= right
      invariant 0 <= left <= right + 1 <= count
      invariant forall k :: 0 <= k < count && s[k].file == file && s[k].line == line ==> left <= k <= right
    {
      var mid := left + (right - left) / 2;
      var e := index[mid];
      assert e == s[mid];
      if e.file == file && e.line == line {
        forall p ensures Some(e.pc) == Some(p) <==> Line(file, line, p) in s {
          if Line(file, line, p) in s { SameKeySameLine(s, e, Line(file, line, p)); }
        }
        return Some(e.pc);
      }
      if e.file < file || (e.file == file && e.line < line) {
        left := mid + 1;
      } else {
        right := mid - 1;
      }
    }
    pc := None;
  }

  /** Building the index and looking a line up in it gives the least pc among the
      entries on that line that count, and nothing exactly when there are none. */
  method FindFirstPc(m: seq<Entry>, bodies: seq<Body>, file: nat, line: int) returns (pc: Option<int>)
    requires SortedByPc(m)
    ensures pc == None ==> forall i: nat :: Counts(m, bodies, i) ==> m[i].file != file || m[i].line != line
    ensures pc.Some? ==> exists i: nat :: Counts(m, bodies, i) && m[i] == Entry(pc.value, file, line)
    ensures pc.Some? ==> forall i: nat ::
              Counts(m, bodies, i) && m[i].file == file && m[i].line == line ==> pc.value <= m[i].pc
  {
    var index, count := BuildIndex(m, bodies);
    pc := FindPc(index, count, file, line);
    ghost var s, t := Indexed(m, bodies), index[..count];
    IndexedIs(m, bodies);
    forall i: nat ensures Counts(m, bodies, i) && m[i].file == file && m[i].line == line ==>
                          pc.Some? && pc.value <= m[i].pc
    {
      if Counts(m, bodies, i) && m[i].file == file && m[i].line == line {
        assert LineOf(m[i]) in s;
        assert Lowest(t, LineOf(m[i]));
        var y :| y in t && Under(y, LineOf(m[i]));
        assert pc == Some(y.pc);
      }
    }
    if pc.Some? {
      IndexMeans(t, s, Line(file, line, pc.value));
      assert Line(file, line, pc.value) in s;
    }
  }

  /** cc_find_pc_for_source without a file: the first line of that number, so the one of
      the lowest file. */
  method FindPcAnyFile(index: array<Line>, count: nat, line: int) returns (pc: Option<int>)
    requires count <= index.Length && StrictlySorted(index[..count])
    ensures pc == None <==> forall k :: 0 <= k < count ==> index[k].line != line
    ensures pc.Some? ==> exists k :: 0 <= k < count && index[k].line == line && index[k].pc == pc.value
                           && forall j :: 0 <= j < count && index[j].line == line ==> index[k].file <= index[j].file
  {
    for i := 0 to count
      invariant forall k :: 0 <= k < i ==> index[k].line != line
    {
      if index[i].line == line {
        forall j | 0 <= j < count && index[j].line == line ensures index[i].file <= index[j].file {
          if i < j { assert index[..count][i] == index[i] && index[..count][j] == index[j]; }
        }
        return Some(index[i].pc);
      }
    }
    pc := None;
  }

  // ---------- when it is rebuilt ----------

  /** The map, the replaced bodies, and the index with the size of the map it was built
      for. */
  class Debugger {
    var srcMap: seq<Entry>
    var bodies: seq<Body>
    var index: array<Line>
    var built: bool
    var count: nat
    var builtFor: int

    constructor ()
      ensures Valid() && srcMap == [] && bodies == []
    {
      srcMap, bodies, built, count, builtFor := [], [], false, 0, -1;
      index := new Line[0];
    }

    /** An index built for a map of the present size is of the present map. */
    ghost predicate Valid()
      reads this, index
    {
      && SortedByPc(srcMap) && builtFor <= |srcMap| && count <= index.Length
      && (built && builtFor == |srcMap| ==> IsIndex(index[..count], srcMap, bodies))
    }

    /** cc_build_source_index with its test for a rebuild. */
    method Rebuild()
      requires Valid()
      modifies this
      ensures Valid() && srcMap == old(srcMap) && bodies == old(bodies)
      ensures srcMap != [] ==> IsIndex(index[..count], srcMap, bodies) && built && builtFor == |srcMap|
      ensures old(built && builtFor == |srcMap|) ==> index == old(index) && count == old(count)
    {
      if srcMap == [] || (built && builtFor == |srcMap|) { return; }
      builtFor := |srcMap|;
      index, count := BuildIndex(srcMap, bodies);
      built := true;
    }

    /** A compile at the top: locations appended, perhaps bodies replaced with them. */
    method Compiled(more: seq<Entry>, replaced: seq<Body>)
      requires Valid() && SortedByPc(srcMap + more) && (more == [] ==> replaced == [])
      modifies this
      ensures Valid() && srcMap == old(srcMap) + more && bodies == old(bodies) + replaced
      ensures srcMap != [] ==> IsIndex(index[..count], srcMap, bodies)
    {
      srcMap, bodies := srcMap + more, bodies + replaced;
      assert more == [] ==> srcMap == old(srcMap) && bodies == old(bodies);
      Rebuild();
    }

    /** forget_text_range: the index is rebuilt whatever the size of the map. */
    method Forgotten(start: int, end: int)
      requires Valid() && start <= end
      modifies this
      ensures Valid() && srcMap == Outside(old(srcMap), start, end) && bodies == old(bodies)
      ensures if srcMap == [] then count == 0 else IsIndex(index[..count], srcMap, bodies)
    {
      OutsideKeeps(srcMap, start, end);
      srcMap := ForgetRange(srcMap, start, end);
      builtFor := -1;
      if srcMap == [] { count := 0; } else { Rebuild(); }
    }
  }

  ghost predicate IsIndex(index: seq<Line>, m: seq<Entry>, bodies: seq<Body>) {
    StrictlySorted(index) && Summary(index, Indexed(m, bodies))
  }
}
