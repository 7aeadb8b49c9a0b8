/** What the mark protocol does to the debugger's source map (src/codegen_stmt.c:24-51,
    src/codegen_func.c:800-827, 943-951): locations appended while code is generated,
    merged after a compile into a hole, dropped with the words they describe. */
module TextMap {
  import opened Holes
  import opened Ownership
  import opened SourceMap
  import T = TextSpace

  /** The map is in order and describes live words only. */
  ghost predicate MapInv(m: seq<Entry>, own: seq<Owner>) {
    SortedByPc(m) && forall i :: 0 <= i < |m| ==> 0 <= m[i].pc < |own| && own[m[i].pc].Of?
  }

  // ---------- recording ----------

  /** The locations a unit records on t, up to its end or to the throw. */
  function Located(t: T.Text, items: seq<T.Item>): seq<Entry>
    requires 0 <= t.top
    decreases |items|
  {
    if items == [] then []
    else match items[0]
      case Source(f, l) => [Entry(t.top + 1, f, l)] + Located(t, items[1..])
      case Word(v) =>
        if T.Full(t) then []
        else Located(t.(words := t.words[t.top + 1 := v], top := t.top + 1), items[1..])
  }

  /** The last location is for word next, which never came. */
  predicate Dangling(b: seq<Entry>, next: int) {
    b != [] && b[|b| - 1].pc == next
  }

  /** Locations are recorded in order, on the words emitted or the one after. */
  lemma {:induction false} LocatedInside(t: T.Text, items: seq<T.Item>)
    requires 0 <= t.top
    ensures var b, u := Located(t, items), T.EmitAll(t, items).0;
      t.top <= u.top && SortedByPc(b) && Inside(b, t.top + 1, u.top + 2)
    decreases |items|
  {
    if items != [] {
      match items[0]
      case Source(_, _) => LocatedInside(t, items[1..]);
      case Word(v) =>
        if !T.Full(t) { LocatedInside(t.(words := t.words[t.top + 1 := v], top := t.top + 1), items[1..]); }
    }
  }

  /** With none dangling, all of them are on words emitted. */
  lemma NoneDangling(b: seq<Entry>, lo: int, next: int)
    requires SortedByPc(b) && Inside(b, lo, next + 1)
    ensures !Dangling(b, next) <==> Inside(b, lo, next)
  {
    if b != [] {
      assert forall i :: 0 <= i < |b| ==> b[i].pc <= b[|b| - 1].pc;
    }
  }

  // ---------- what a unit leaves in the text and the map ----------

  /** How many of the first i items are words. */
  function WordsBefore(items: seq<T.Item>, i: nat): (n: nat)
    requires i <= |items|
  {
    if i == 0 then 0 else (if items[0].Word? then 1 else 0) + WordsBefore(items[1..], i - 1)
  }

  function SourcesBefore(items: seq<T.Item>, i: nat): (n: nat)
    requires i <= |items|
    ensures n + WordsBefore(items, i) == i
  {
    if i == 0 then 0 else (if items[0].Word? then 0 else 1) + SourcesBefore(items[1..], i - 1)
  }

  /** Item i took effect, t being the text the unit started on, u what it left and b the
      locations it recorded: word j stands j words behind the start, and a location names
      the place of the word to come. */
  ghost predicate TookEffect(t: T.Text, items: seq<T.Item>, u: T.Text, b: seq<Entry>, i: nat)
    requires 0 <= t.top && i < |items|
  {
    var pc := t.top + 1 + WordsBefore(items, i);
    match items[i]
    case Word(v) => pc <= u.top && pc < |u.words| && u.words[pc] == v
    case Source(f, l) => SourcesBefore(items, i) < |b| && b[SourcesBefore(items, i)] == Entry(pc, f, l)
  }

  /** The first n items took effect and nothing else did; a unit stops early only in front
      of a word for which there is no room. */
  ghost predicate StopsAt(t: T.Text, items: seq<T.Item>, n: nat)
    requires 0 <= t.top
  {
    var (u, ok) := T.EmitAll(t, items);
    var b := Located(t, items);
    && n <= |items| && (ok <==> n == |items|)
    && (!ok ==> items[n].Word? && (u.top + 1 >= |t.words| || (t.limit != 0 && u.top + 1 >= t.limit)))
    && u.top == t.top + WordsBefore(items, n) && |b| == SourcesBefore(items, n)
    && forall i :: 0 <= i < n ==> TookEffect(t, items, u, b, i)
  }

  lemma {:induction false} EmittedExactly(t: T.Text, items: seq<T.Item>) returns (n: nat)
    requires 0 <= t.top
    ensures StopsAt(t, items, n)
    decreases |items|
  {
    if items == [] || (items[0].Word? && T.Full(t)) {
      n := 0;
    } else {
      var n' := EmittedExactly(After(t, items[0]), items[1..]);
      n := n' + 1;
      EffectsFollow(t, items, n');
    }
  }

  /** The text behind one item that took effect. */
  function After(t: T.Text, x: T.Item): T.Text
    requires 0 <= t.top && (x.Word? ==> !T.Full(t))
  {
    if x.Word? then t.(words := t.words[t.top + 1 := x.value], top := t.top + 1) else t
  }

  lemma LaterEffect(t: T.Text, items: seq<T.Item>, u: T.Text, b': seq<Entry>, b: seq<Entry>, i: nat)
    requires 0 <= t.top && 0 < i < |items| && (items[0].Word? ==> !T.Full(t))
    requires b == (if items[0].Word? then b' else [Entry(t.top + 1, items[0].file, items[0].line)] + b')
    requires TookEffect(After(t, items[0]), items[1..], u, b', i - 1)
    ensures TookEffect(t, items, u, b, i)
  {
  }

  lemma FirstEffect(t: T.Text, items: seq<T.Item>, u: T.Text, b: seq<Entry>)
    requires 0 <= t.top && items != [] && (items[0].Word? ==> !T.Full(t))
    requires if items[0].Word? then T.Emitted(After(t, items[0]), u)
             else b != [] && b[0] == Entry(t.top + 1, items[0].file, items[0].line)
    ensures TookEffect(t, items, u, b, 0)
  {
  }

  lemma EffectsFollow(t: T.Text, items: seq<T.Item>, n: nat)
    requires 0 <= t.top && items != [] && (items[0].Word? ==> !T.Full(t))
    requires StopsAt(After(t, items[0]), items[1..], n)
    ensures StopsAt(t, items, n + 1)
  {
    var t' := After(t, items[0]);
    var u, b, b' := T.EmitAll(t, items).0, Located(t, items), Located(t', items[1..]);
    T.EmitAllEmits(t', items[1..]);
    FirstEffect(t, items, u, b);
    forall i | 0 < i < n + 1 ensures TookEffect(t, items, u, b, i) {
      LaterEffect(t, items, u, b', b, i);
    }
  }

  /** A unit whose last item is a word leaves no location dangling. */
  lemma {:induction false} ClosedUnit(t: T.Text, items: seq<T.Item>)
    requires 0 <= t.top && T.EmitAll(t, items).1
    requires items == [] || items[|items| - 1].Word?
    ensures !Dangling(Located(t, items), T.EmitAll(t, items).0.top + 1)
    ensures items != [] ==> t.top < T.EmitAll(t, items).0.top
    decreases |items|
  {
    if items != [] {
      var rest := items[1..];
      match items[0]
      case Source(f, l) =>
        ClosedUnit(t, rest);
      case Word(v) =>
        var v := t.(words := t.words[t.top + 1 := v], top := t.top + 1);
        ClosedUnit(v, rest);
        LocatedInside(v, rest);
    }
  }

  // ---------- what the protocol does to the map ----------

  /** The map when a compile has appended b, in a hole or at the top. */
  function Finished(m: seq<Entry>, b: seq<Entry>, inHole: bool): seq<Entry> {
    if inHole then MergeTailOf(m + b, |m|) else m + b
  }

  /** The map when the words [start, end) are given back. */
  function Released(m: seq<Entry>, start: int, end: int): seq<Entry> {
    if start == end then m else Forget(m, start, end)
  }

  ghost predicate AllOn(m: seq<Entry>, own: seq<Owner>) {
    forall e :: e in m ==> 0 <= e.pc < |own| && own[e.pc].Of?
  }

  lemma MapOn(m: seq<Entry>, own: seq<Owner>)
    requires SortedByPc(m)
    ensures MapInv(m, own) <==> AllOn(m, own)
  {
    if MapInv(m, own) {
      forall e | e in m ensures 0 <= e.pc < |own| && own[e.pc].Of? {
        var i :| 0 <= i < |m| && m[i] == e;
      }
    }
    if AllOn(m, own) {
      assert forall i :: 0 <= i < |m| ==> m[i] in m;
    }
  }

  /** A compile at the top of own, up to word next. */
  lemma TopMap(m: seq<Entry>, own: seq<Owner>, b: seq<Entry>, next: int, own': seq<Owner>)
    requires MapInv(m, own) && SortedByPc(b) && Inside(b, |own|, next)
    requires |own'| == next && own <= own' && forall w :: |own| <= w < next ==> own'[w].Of?
    ensures MapInv(m + b, own')
  {
  }

  lemma HoleIsClear(m: seq<Entry>, h: seq<Hole>, own: seq<Owner>, x: Hole)
    requires ListsFree(h, own) && MapInv(m, own) && Listed(h, x)
    ensures Clear(m, x.start, x.end)
  {
    ListedCells(h, own, x);
    forall j | 0 <= j < |m| ensures m[j].pc < x.start || x.end <= m[j].pc {
      assert !In(x, m[j].pc);
    }
  }

  /** A compile into hole x merges at one place and in order, even with a location left
      dangling. */
  lemma HoleMerges(m: seq<Entry>, b: seq<Entry>, x: Hole)
    requires SortedByPc(m) && Clear(m, x.start, x.end) && SortedByPc(b) && Inside(b, x.start, x.end + 1)
    ensures Finished(m, b, true) == Merge(m, b) && SortedByPc(Merge(m, b))
    ensures multiset(Merge(m, b)) == multiset(m) + multiset(b)
  {
    assert (m + b)[..|m|] == m && (m + b)[|m|..] == b;
    TailMerges(m + b, |m|, x.start, x.end);
    MergeSorts(m, b, x.start, x.end);
  }

  /** The words [x.start, next) of hole x taken by a compile: all entries on live words. */
  lemma HoleMap(m: seq<Entry>, own: seq<Owner>, b: seq<Entry>, x: Hole, next: int, own': seq<Owner>)
    requires MapInv(m, own) && Clear(m, x.start, x.end) && SortedByPc(b) && Inside(b, x.start, next)
    requires 0 <= x.start <= next <= x.end <= |own|
    requires |own'| == |own| && (forall w :: 0 <= w < |own| && own[w].Of? ==> own'[w].Of?)
    requires forall w :: x.start <= w < next ==> own'[w].Of?
    ensures MapInv(Finished(m, b, true), own')
  {
    HoleMerges(m, b, x);
    MapOn(m, own);
    forall e | e in Merge(m, b) ensures 0 <= e.pc < |own'| && own'[e.pc].Of? {
      MergedFrom(m, b, e);
    }
    MapOn(Merge(m, b), own');
  }

  lemma MergedFrom(a: seq<Entry>, b: seq<Entry>, e: Entry)
    requires multiset(Merge(a, b)) == multiset(a) + multiset(b) && e in Merge(a, b)
    ensures e in a || exists i :: 0 <= i < |b| && b[i] == e
  {
    assert e in multiset(Merge(a, b));
    if e !in multiset(a) { assert e in multiset(b); }
  }

  /** Words given back take their entries with them. */
  lemma DropsMap(m: seq<Entry>, own: seq<Owner>, own': seq<Owner>, start: int, end: int)
    requires MapInv(m, own) && T.OnlyDrops(own, own', start, end) && start <= end
    ensures MapInv(Released(m, start, end), own')
  {
    if start < end {
      ForgetIsOutside(m, start, end);
      OutsideKeeps(m, start, end);
      MapOn(m, own);
      MapOn(Outside(m, start, end), own');
    }
  }

  // ---------- throws ----------

  lemma AppendedOutside(a: seq<Entry>, b: seq<Entry>, start: int, end: int)
    requires Clear(a, start, end)
    ensures Outside(a + b, start, end) == a + Outside(b, start, end)
  {
    OutsideSplit(a, b, start, end);
    OutsideAll(a, start, end);
  }

  lemma LastStays(m: seq<Entry>, start: int, end: int)
    requires m != [] && end <= m[|m| - 1].pc
    ensures m[|m| - 1] in Outside(m, start, end)
  {
    var n := |m| - 1;
    assert m == m[..n] + [m[n]];
    OutsideSplit(m[..n], [m[n]], start, end);
    assert m[n] in Outside([m[n]], start, end);
  }

  /** The map a throw at the top leaves, next being the word that was to come. */
  lemma ThrownAtTop(m: seq<Entry>, own: seq<Owner>, b: seq<Entry>, next: int)
    requires MapInv(m, own) && SortedByPc(b) && Inside(b, |own|, next + 1) && |own| <= next
    ensures !Dangling(b, next) ==> Released(m + b, |own|, next) == m
    ensures Dangling(b, next) ==> b[|b| - 1] in Released(m + b, |own|, next)
  {
    NoneDangling(b, |own|, next);
    if |own| == next {
      assert !Dangling(b, next) ==> b == [];
      assert m + [] == m;
    } else {
      ForgetIsOutside(m + b, |own|, next);
      AppendedOutside(m, b, |own|, next);
      OutsideAll(b, |own|, next);
      assert m + [] == m;
      if Dangling(b, next) { LastStays(b, |own|, next); }
    }
  }

  /** It describes live words only exactly when no location was left dangling: the range
      given back ends before the word that never came. */
  lemma ThrowMapExact(m: seq<Entry>, own: seq<Owner>, b: seq<Entry>, next: int, n: nat)
    requires MapInv(m, own) && SortedByPc(b) && Inside(b, |own|, next + 1) && |own| <= next
    requires n <= |own| && forall w :: n <= w < |own| ==> !own[w].Of?
    ensures MapInv(Released(m + b, |own|, next), own[..n]) <==> !Dangling(b, next)
  {
    ThrownAtTop(m, own, b, next);
    if Dangling(b, next) {
      var left := Released(m + b, |own|, next);
      var i :| 0 <= i < |left| && left[i] == b[|b| - 1];
      assert left[i].pc == next;
    }
  }

  lemma OutsideAround(p: seq<Entry>, b: seq<Entry>, q: seq<Entry>, start: int, end: int)
    requires Clear(p, start, end) && Clear(q, start, end)
    ensures Outside(p + b + q, start, end) == p + Outside(b, start, end) + q
  {
    OutsideSplit(p + b, q, start, end);
    OutsideSplit(p, b, start, end);
    OutsideAll(p, start, end);
    OutsideAll(q, start, end);
  }

  /** Dropping a range from a merged map drops it from the part merged in. */
  lemma MergedOutside(a: seq<Entry>, b: seq<Entry>, start: int, end: int)
    requires Clear(a, start, end)
    ensures Inside(b, start, end) ==> Outside(Merge(a, b), start, end) == a
    ensures |Outside(Merge(a, b), start, end)| == |a| + |Outside(b, start, end)|
  {
    OutsideAll(b, start, end);
    if b == [] {
      OutsideAll(a, start, end);
    } else {
      var n := Rank(a, b[0].pc);
      OutsideAround(a[..n], b, a[n..], start, end);
      assert a == a[..n] + a[n..];
      assert a[..n] + [] == a[..n];
    }
  }

  /** A throw in hole x gives the map back exactly when no location was left dangling. */
  lemma ThrowInHoleExact(m: seq<Entry>, b: seq<Entry>, x: Hole, next: int)
    requires SortedByPc(m) && Clear(m, x.start, x.end) && SortedByPc(b) && Inside(b, x.start, next + 1)
    requires x.start <= next <= x.end
    ensures Released(Finished(m, b, true), x.start, next) == m <==> !Dangling(b, next)
  {
    NoneDangling(b, x.start, next);
    HoleMerges(m, b, x);
    MergedOutside(m, b, x.start, next);
    if x.start < next {
      ForgetIsOutside(Merge(m, b), x.start, next);
      if Dangling(b, next) { LastStays(b, x.start, next); }
    } else {
      assert |Merge(m, b)| == |m| + |b|;
    }
  }
}
