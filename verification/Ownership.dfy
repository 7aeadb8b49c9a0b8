/** Who owns each cell of a segment: the shared half of the text and data
    invariants. */
module Ownership {
  import opened Holes

  /** A reserved or permanently kept cell, a reclaimed one, one that holds the
      filler but is listed nowhere, or a cell of the numbered compile. */
  datatype Owner = Kept | FreeCell | LostCell | Of(id: nat)

  predicate In(x: Hole, w: int) {
    x.start <= w < x.end
  }

  /** The cells owned by compile k are exactly the cells of its region. */
  ghost predicate Owned(own: seq<Owner>, regs: seq<Hole>) {
    && (forall w :: 0 <= w < |own| && own[w].Of? ==> own[w].id < |regs| && In(regs[own[w].id], w))
    && (forall k, w {:trigger In(regs[k], w)} {:trigger own[w], regs[k]} ::
          0 <= k < |regs| && In(regs[k], w) ==> 0 <= w < |own| && own[w] == Of(k))
  }

  /** own with [a, b) given to o. */
  function Marked(own: seq<Owner>, a: int, b: int, o: Owner): (r: seq<Owner>)
    ensures |r| == |own|
    ensures forall i :: 0 <= i < |own| ==> r[i] == if a <= i < b then o else own[i]
  {
    seq(|own|, i requires 0 <= i < |own| => if a <= i < b then o else own[i])
  }

  /** own extended with o to n cells. */
  function Grown(own: seq<Owner>, n: int, o: Owner): (r: seq<Owner>)
    ensures n >= |own| ==> |r| == n
    ensures forall i :: 0 <= i < |r| ==> r[i] == if i < |own| then own[i] else o
  {
    if n < |own| then own else seq(n, i requires 0 <= i < n => if i < |own| then own[i] else o)
  }

  /** The first n cells. */
  function Prefix(own: seq<Owner>, n: int): seq<Owner> {
    if 0 <= n <= |own| then own[..n] else own
  }

  /** A new region takes cells no compile owned, perhaps past the old end. */
  lemma OwnedGrows(own: seq<Owner>, own': seq<Owner>, regs: seq<Hole>, r: Hole)
    requires Owned(own, regs) && |own| <= |own'|
    requires forall w :: 0 <= w < |own'| ==>
        own'[w] == (if In(r, w) then Of(|regs|) else if w < |own| then own[w] else FreeCell)
    requires forall w :: In(r, w) ==> 0 <= w < |own'| && (w < |own| ==> !own[w].Of?)
    ensures Owned(own', regs + [r])
  {
    var rs := regs + [r];
    forall w | 0 <= w < |own'| && own'[w].Of? ensures own'[w].id < |rs| && In(rs[own'[w].id], w) {
      if !In(r, w) { assert rs[own[w].id] == regs[own[w].id]; }
    }
    forall k, w ensures 0 <= k < |rs| && In(rs[k], w) ==> 0 <= w < |own'| && own'[w] == Of(k) {
      if 0 <= k < |regs| { assert rs[k] == regs[k]; }
    }
  }

  /** Region k is given up: its cells go to nobody, or off the end. */
  lemma OwnedDrops(own: seq<Owner>, own': seq<Owner>, regs: seq<Hole>, k: nat)
    requires Owned(own, regs) && k < |regs| && |own'| <= |own|
    requires forall w :: 0 <= w < |own'| ==> own'[w] == own[w] || (own[w] == Of(k) && !own'[w].Of?)
    requires forall w :: 0 <= w < |own'| && own[w] == Of(k) ==> own'[w] != Of(k)
    requires forall w :: |own'| <= w < |own| && own[w].Of? ==> own[w] == Of(k)
    ensures Owned(own', regs[k := Hole(0, 0)])
  {
    var rs := regs[k := Hole(0, 0)];
    forall i, w ensures 0 <= i < |rs| && In(rs[i], w) ==> 0 <= w < |own'| && own'[w] == Of(i) {
      if 0 <= i < |rs| && i != k && In(rs[i], w) { assert In(regs[i], w); }
    }
  }

  lemma RegionCells(own: seq<Owner>, regs: seq<Hole>, k: nat)
    requires Owned(own, regs) && k < |regs|
    ensures forall w :: 0 <= w < |own| ==> (own[w] == Of(k) <==> In(regs[k], w))
    ensures forall w :: In(regs[k], w) ==> 0 <= w < |own|
  {
  }

  lemma FreedOwned(own: seq<Owner>, regs: seq<Hole>, k: nat, o: Owner)
    requires Owned(own, regs) && k < |regs| && !o.Of?
    ensures Owned(Marked(own, regs[k].start, regs[k].end, o), regs[k := Hole(0, 0)])
  {
    RegionCells(own, regs, k);
    OwnedDrops(own, Marked(own, regs[k].start, regs[k].end, o), regs, k);
  }

  /** Region k was the last one, up to free cells below it. */
  lemma TruncatedOwned(own: seq<Owner>, regs: seq<Hole>, k: nat, n: int)
    requires Owned(own, regs) && k < |regs| && 0 <= n <= regs[k].start <= regs[k].end == |own|
    requires forall w :: n <= w < regs[k].start ==> own[w] == FreeCell
    ensures Owned(own[..n], regs[k := Hole(0, 0)])
    ensures forall w :: n <= w < |own| && own[w].Of? ==> regs[k].start <= w
  {
    RegionCells(own, regs, k);
    forall w | 0 <= w < |own| && own[w] == Of(k) ensures n <= w { assert In(regs[k], w); }
    forall w | n <= w < |own| && own[w].Of? ensures own[w] == Of(k) && regs[k].start <= w { assert In(regs[k], w); }
    OwnedDrops(own, own[..n], regs, k);
  }

  /** A region that owns nothing, and cells off the end that nobody owned. */
  lemma OwnedAddsEmpty(own: seq<Owner>, n: int, regs: seq<Hole>)
    requires Owned(own, regs) && 0 <= n <= |own|
    requires forall w :: n <= w < |own| ==> !own[w].Of?
    ensures Owned(own[..n], regs + [Hole(0, 0)])
  {
    var rs := regs + [Hole(0, 0)];
    forall k, w ensures 0 <= k < |rs| && In(rs[k], w) ==> 0 <= w < n && own[w] == Of(k) {
      if 0 <= k < |regs| && In(rs[k], w) { assert In(regs[k], w); }
    }
  }

  lemma OwnedSame(own: seq<Owner>, own': seq<Owner>, regs: seq<Hole>)
    requires Owned(own, regs) && |own| == |own'|
    requires forall w :: 0 <= w < |own| ==> own'[w] == own[w] || (!own[w].Of? && !own'[w].Of?)
    ensures Owned(own', regs)
  {
    forall k, w ensures 0 <= k < |regs| && In(regs[k], w) ==> 0 <= w < |own'| && own'[w] == Of(k) {
      if 0 <= k < |regs| && In(regs[k], w) { assert own[w] == Of(k); }
    }
  }

  /** The holes list exactly the free cells. */
  ghost predicate ListsFree(h: seq<Hole>, own: seq<Owner>) {
    Canonical(h) && forall w :: Free(h, w) <==> 0 <= w < |own| && own[w] == FreeCell
  }

  lemma ListedCells(h: seq<Hole>, own: seq<Owner>, x: Hole)
    requires ListsFree(h, own) && Listed(h, x)
    ensures forall w :: In(x, w) ==> 0 <= w < |own| && own[w] == FreeCell
    ensures 0 <= x.start < x.end <= |own|
  {
    var i :| 0 <= i < |h| && h[i] == x;
    forall w ensures In(x, w) ==> 0 <= w < |own| && own[w] == FreeCell {
      if In(x, w) { assert Free(h, w); }
    }
    assert In(x, x.start) && In(x, x.end - 1);
  }

  /** A range nobody lists as free can be added to the holes. */
  lemma FreedLists(h: seq<Hole>, own: seq<Owner>, r: Hole)
    requires ListsFree(h, own) && r.start < r.end
    requires forall w :: In(r, w) ==> 0 <= w < |own| && own[w] != FreeCell
    ensures Taken(h, r.start, r.end) && ListsFree(Insert(h, r.start, r.end), Marked(own, r.start, r.end, FreeCell))
  {
    forall i | 0 <= i < |h| ensures h[i].end <= r.start || r.end <= h[i].start {
      var x := h[i];
      assert Free(h, x.start);
      assert x.start <= r.start < x.end ==> Free(h, r.start);
      assert !In(r, x.start);
      assert In(r, r.start);
    }
    InsertAdds(h, r.start, r.end);
    assert In(r, r.start) && In(r, r.end - 1);
  }

  lemma CarvedLists(h: seq<Hole>, own: seq<Owner>, x: Hole, cursor: int, o: Owner)
    requires ListsFree(h, own) && Listed(h, x) && x.start <= cursor <= x.end && o != FreeCell
    ensures ListsFree(Carve(h, x.start, cursor), Marked(own, x.start, cursor, o))
  {
    CarveTakes(h, x, cursor);
  }

  /** Taking back the holes that end at the limit stops at a cell in use. */
  lemma AbsorbLists(h: seq<Hole>, own: seq<Owner>)
    requires ListsFree(h, own)
    ensures var (r, l) := Absorb(h, |own|);
      && 0 <= l <= |own| && ListsFree(r, own[..l])
      && (forall w :: l <= w < |own| ==> own[w] == FreeCell)
      && (l > 0 ==> own[l - 1] != FreeCell)
  {
    forall i | 0 <= i < |h| ensures 0 <= h[i].start && h[i].end <= |own| {
      ListedCells(h, own, h[i]);
    }
    AbsorbTakes(h, |own|);
    var (r, l) := Absorb(h, |own|);
    assert Free(h, -1) ==> false;
    assert l < 0 ==> Free(h, -1);
    assert Free(h, l - 1) ==> Free(r, l - 1);
    assert !Free(r, l - 1);
  }
}
