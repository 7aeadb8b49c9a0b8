/** The debugger's source map through reclaimed code (src/codegen_func.c:786-827):
    entries ordered by pc, searched, merged after a compile into a hole, and
    dropped with the words they describe. */
module SourceMap {

  datatype Entry = Entry(pc: int, file: nat, line: int)

  ghost predicate SortedByPc(m: seq<Entry>) {
    forall i, j :: 0 <= i < j < |m| ==> m[i].pc <= m[j].pc
  }

  /** Everything below pc comes first. Weaker than sorted: it is all the binary
      search needs, and it holds of a map whose tail is still out of place. */
  ghost predicate SplitAt(m: seq<Entry>, pc: int) {
    forall i, j :: 0 <= i < j < |m| && m[j].pc < pc ==> m[i].pc < pc
  }

  /** Where the binary search for pc ends, on any map. */
  function Bound(m: seq<Entry>, pc: int): (r: nat)
    ensures r <= |m|
    decreases |m|, 1
  {
    if m == [] then 0 else Half(m, pc, |m| / 2)
  }

  /** The half that is left after looking at mid. */
  function Half(m: seq<Entry>, pc: int, mid: nat): (r: nat)
    requires mid < |m|
    ensures r <= |m|
    decreases |m|, 0
  {
    if m[mid].pc < pc then mid + 1 + Bound(m[mid + 1..], pc) else Bound(m[..mid], pc)
  }

  /** source_map_lower_bound. */
  method LowerBound(m: seq<Entry>, pc: int) returns (lo: nat)
    ensures lo == Bound(m, pc)
  {
    lo := 0;
    var hi := |m|;
    assert m[lo..hi] == m;
    while lo < hi
      invariant 0 <= lo <= hi <= |m|
      invariant lo + Bound(m[lo..hi], pc) == Bound(m, pc)
    {
      var mid := lo + (hi - lo) / 2;
      ghost var r := m[lo..hi];
      assert r[mid - lo] == m[mid] && r[mid - lo + 1..] == m[mid + 1..hi] && r[..mid - lo] == m[lo..mid];
      if m[mid].pc < pc { lo := mid + 1; } else { hi := mid; }
    }
  }

  /** Where everything below pc comes first, the search finds the border. */
  lemma {:induction false} BoundSplits(m: seq<Entry>, pc: int)
    requires SplitAt(m, pc)
    ensures forall i :: 0 <= i < Bound(m, pc) ==> m[i].pc < pc
    ensures forall i :: Bound(m, pc) <= i < |m| ==> pc <= m[i].pc
    decreases |m|
  {
    if m != [] {
      var mid := |m| / 2;
      if m[mid].pc < pc {
        var t := m[mid + 1..];
        BoundSplits(t, pc);
        assert forall i :: mid + 1 <= i < |m| ==> m[i] == t[i - mid - 1];
      } else {
        var t := m[..mid];
        BoundSplits(t, pc);
        assert forall i :: 0 <= i < mid ==> m[i] == t[i];
      }
    }
  }

  /** A lower pc is never found higher, however disordered the map. */
  lemma {:induction false} BoundMonotone(m: seq<Entry>, start: int, end: int)
    requires start <= end
    ensures Bound(m, start) <= Bound(m, end)
    decreases |m|
  {
    if m != [] {
      var mid := |m| / 2;
      if m[mid].pc < start {
        BoundMonotone(m[mid + 1..], start, end);
      } else if end <= m[mid].pc {
        BoundMonotone(m[..mid], start, end);
      }
    }
  }

  /** No entry of m describes a word of [start, end). */
  ghost predicate Clear(m: seq<Entry>, start: int, end: int) {
    forall i :: 0 <= i < |m| ==> m[i].pc < start || end <= m[i].pc
  }

  ghost predicate Inside(m: seq<Entry>, start: int, end: int) {
    forall i :: 0 <= i < |m| ==> start <= m[i].pc < end
  }

  /** The entries outside [start, end), in order. */
  function Outside(m: seq<Entry>, start: int, end: int): seq<Entry> {
    if m == [] then []
    else if start <= m[0].pc < end then Outside(m[1..], start, end)
    else [m[0]] + Outside(m[1..], start, end)
  }

  lemma {:induction false} OutsideSplit(a: seq<Entry>, b: seq<Entry>, start: int, end: int)
    ensures Outside(a + b, start, end) == Outside(a, start, end) + Outside(b, start, end)
  {
    if a == [] {
      assert a + b == b;
    } else {
      OutsideSplit(a[1..], b, start, end);
      assert (a + b)[1..] == a[1..] + b;
    }
  }

  lemma {:induction false} OutsideAll(m: seq<Entry>, start: int, end: int)
    ensures Clear(m, start, end) ==> Outside(m, start, end) == m
    ensures Inside(m, start, end) ==> Outside(m, start, end) == []
  {
    if m != [] {
      OutsideAll(m[1..], start, end);
      if Clear(m, start, end) { assert Clear(m[1..], start, end); }
      if Inside(m, start, end) { assert Inside(m[1..], start, end); }
    }
  }

  /** Filtering keeps the order and drops exactly the range. */
  lemma {:induction false} OutsideKeeps(m: seq<Entry>, start: int, end: int)
    requires SortedByPc(m)
    ensures SortedByPc(Outside(m, start, end)) && Clear(Outside(m, start, end), start, end)
    ensures forall e :: e in Outside(m, start, end) <==> e in m && !(start <= e.pc < end)
  {
    if m != [] {
      OutsideKeeps(m[1..], start, end);
      var t := Outside(m[1..], start, end);
      assert forall e :: e in m <==> e == m[0] || e in m[1..];
      forall i | 0 <= i < |t| ensures m[0].pc <= t[i].pc {
        assert t[i] in m[1..];
      }
    }
  }

  /** The map half of forget_text_range: what two searches and a memmove leave, on any
      map. */
  function Forget(m: seq<Entry>, start: int, end: int): seq<Entry> {
    m[..Bound(m, start)] + m[Bound(m, end)..]
  }

  method ForgetRange(m: seq<Entry>, start: int, end: int) returns (r: seq<Entry>)
    requires start <= end
    ensures r == Forget(m, start, end) && |r| <= |m|
    ensures SortedByPc(m) ==> r == Outside(m, start, end)
  {
    var lo := LowerBound(m, start);
    var hi := LowerBound(m, end);
    r := m[..lo] + m[hi..];
    BoundMonotone(m, start, end);
    if SortedByPc(m) { ForgetIsOutside(m, start, end); }
  }

  /** On a sorted map they drop exactly the range. */
  lemma ForgetIsOutside(m: seq<Entry>, start: int, end: int)
    requires SortedByPc(m) && start <= end
    ensures Forget(m, start, end) == Outside(m, start, end)
  {
    var lo, hi := Bound(m, start), Bound(m, end);
    BoundSplits(m, start);
    BoundSplits(m, end);
    BoundMonotone(m, start, end);
    ForgetParts(m, lo, hi, start, end);
  }

  lemma ForgetParts(m: seq<Entry>, lo: nat, hi: nat, start: int, end: int)
    requires lo <= hi <= |m|
    requires Clear(m[..lo], start, end) && Inside(m[lo..hi], start, end) && Clear(m[hi..], start, end)
    ensures m[..lo] + m[hi..] == Outside(m, start, end)
  {
    assert m == m[..lo] + (m[lo..hi] + m[hi..]);
    OutsideSplit(m[..lo], m[lo..hi] + m[hi..], start, end);
    OutsideSplit(m[lo..hi], m[hi..], start, end);
    OutsideAll(m[..lo], start, end);
    OutsideAll(m[lo..hi], start, end);
    OutsideAll(m[hi..], start, end);
  }

  /** How many leading entries lie below pc. */
  function Rank(m: seq<Entry>, pc: int): (n: nat)
    ensures n <= |m|
  {
    if m == [] || pc <= m[0].pc then 0 else 1 + Rank(m[1..], pc)
  }

  lemma {:induction false} RankIs(m: seq<Entry>, pc: int, n: nat)
    requires n <= |m|
    requires forall i :: 0 <= i < n ==> m[i].pc < pc
    requires n < |m| ==> pc <= m[n].pc
    ensures Rank(m, pc) == n
  {
    if n > 0 { RankIs(m[1..], pc, n - 1); }
  }

  /** The map with the block b put where its first pc belongs. */
  function Merge(a: seq<Entry>, b: seq<Entry>): seq<Entry> {
    if b == [] then a else a[..Rank(a, b[0].pc)] + b + a[Rank(a, b[0].pc)..]
  }

  /** Both ordered maps give one ordered map with exactly their entries, because
      b falls into a gap of a. */
  lemma MergeSorts(a: seq<Entry>, b: seq<Entry>, start: int, end: int)
    requires SortedByPc(a) && SortedByPc(b)
    requires Clear(a, start, end) && Inside(b, start, end + 1)
    ensures SortedByPc(Merge(a, b)) && multiset(Merge(a, b)) == multiset(a) + multiset(b)
  {
    if b != [] {
      var n := RankSplits(a, b[0].pc);
      assert a == a[..n] + a[n..];
      assert forall i :: n <= i < |a| ==> end <= a[i].pc;
      Concat3(a[..n], b, a[n..], end);
    }
  }

  lemma Concat3(x: seq<Entry>, b: seq<Entry>, y: seq<Entry>, end: int)
    requires SortedByPc(x) && SortedByPc(b) && SortedByPc(y) && b != []
    requires forall i :: 0 <= i < |b| ==> b[i].pc <= end
    requires forall i :: 0 <= i < |x| ==> x[i].pc < b[0].pc
    requires forall i :: 0 <= i < |y| ==> end <= y[i].pc
    ensures SortedByPc(x + b + y)
  {
    forall i, j | 0 <= i < |x| && 0 <= j < |b| ensures x[i].pc <= b[j].pc {
      assert j > 0 ==> b[0].pc <= b[j].pc;
    }
  }

  lemma RankSplits(m: seq<Entry>, pc: int) returns (n: nat)
    requires SortedByPc(m)
    ensures n == Rank(m, pc) && n <= |m|
    ensures forall i :: 0 <= i < n ==> m[i].pc < pc
    ensures forall i :: n <= i < |m| ==> pc <= m[i].pc
  {
    n := 0;
    while n < |m| && m[n].pc < pc
      invariant n <= |m| && forall i :: 0 <= i < n ==> m[i].pc < pc
    { n := n + 1; }
    RankIs(m, pc, n);
  }

  /** source_map_merge_tail, on any map. */
  function MergeTailOf(m: seq<Entry>, first: nat): seq<Entry> {
    if first >= |m| || Bound(m, m[first].pc) >= first then m
    else
      var pos := Bound(m, m[first].pc);
      m[..pos] + m[first..] + m[pos..first]
  }

  method MergeTail(m: seq<Entry>, first: nat) returns (r: seq<Entry>)
    ensures r == MergeTailOf(m, first) && multiset(r) == multiset(m)
  {
    if first >= |m| {
      return m;
    }
    var pos := LowerBound(m, m[first].pc);
    if pos >= first {
      return m;
    }
    r := m[..pos] + m[first..] + m[pos..first];
    assert m == m[..pos] + (m[pos..first] + m[first..]);
  }

  /** The entries from first on were appended by code that lies in [start, end], a range
      no older entry describes: merged, they stand where their pcs belong. */
  lemma TailMerges(m: seq<Entry>, first: nat, start: int, end: int)
    requires first <= |m|
    requires SortedByPc(m[..first]) && SortedByPc(m[first..])
    requires Inside(m[first..], start, end + 1) && Clear(m[..first], start, end)
    ensures MergeTailOf(m, first) == Merge(m[..first], m[first..])
    ensures SortedByPc(MergeTailOf(m, first)) && multiset(MergeTailOf(m, first)) == multiset(m)
  {
    MergeSorts(m[..first], m[first..], start, end);
    assert m[..first] + m[first..] == m;
    if first < |m| {
      TailSplits(m, first);
      BoundSplits(m, m[first].pc);
      TailRank(m, first, Bound(m, m[first].pc));
    }
  }

  lemma TailRank(m: seq<Entry>, first: nat, pos: nat)
    requires first < |m| && pos <= |m|
    requires forall i :: 0 <= i < pos ==> m[i].pc < m[first].pc
    requires forall i :: pos <= i < |m| ==> m[first].pc <= m[i].pc
    ensures pos <= first && Merge(m[..first], m[first..]) == m[..pos] + m[first..] + m[pos..first]
    ensures pos == first ==> Merge(m[..first], m[first..]) == m
  {
    var a := m[..first];
    assert m[first..][0] == m[first];
    RankIs(a, m[first].pc, pos);
    assert a[..pos] == m[..pos] && a[pos..] == m[pos..first];
  }

  /** The whole array is not sorted, yet the search for the tail's first pc is
      sound on it. */
  lemma TailSplits(m: seq<Entry>, first: nat)
    requires first < |m| && SortedByPc(m[..first]) && SortedByPc(m[first..])
    ensures SplitAt(m, m[first].pc)
  {
    var a, b := m[..first], m[first..];
    assert forall i :: 0 <= i < first ==> a[i] == m[i];
    assert forall i :: first <= i < |m| ==> b[i - first] == m[i] && b[0].pc <= b[i - first].pc;
  }
}
