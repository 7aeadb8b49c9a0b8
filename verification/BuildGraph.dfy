/** run_graph end to end (src/build.c:3393-3665, the parallel path): order the
    chosen targets, then dispatch them. */
module BuildGraph {
  import opened Common
  import opened Targets
  import opened TopoSort
  import opened Schedule
  import opened Dispatch

  /** The place of x in the order. */
  function Position(ord: seq<nat>, x: nat): (k: nat)
    requires x in ord
    ensures k < |ord| && ord[k] == x
  {
    if ord[0] == x then 0 else 1 + Position(ord[1..], x)
  }

  function Positions(ord: seq<nat>, ds: seq<nat>): (r: seq<nat>)
    requires forall d :: d in ds ==> d in ord
    ensures |r| == |ds| && forall i :: 0 <= i < |ds| ==> r[i] < |ord| && ord[r[i]] == ds[i]
  {
    if ds == [] then [] else [Position(ord, ds[0])] + Positions(ord, ds[1..])
  }

  /** What an order made by the sort is. */
  ghost predicate Sorted(g: Graph, ord: seq<nat>) {
    && Wf(g) && Distinct(ord) && DepsFirst(g, ord)
    && (forall k :: 0 <= k < |ord| ==> ord[k] < |g| && forall d :: d in g[ord[k]] ==> d in ord)
  }

  /** The graph with every target renamed to its place in the order. */
  function Relabel(g: Graph, ord: seq<nat>): (r: Graph)
    requires Sorted(g, ord)
    ensures |r| == |ord|
    ensures forall k :: 0 <= k < |ord| ==> r[k] == Positions(ord, g[ord[k]])
  {
    seq(|ord|, k requires 0 <= k < |ord| => Positions(ord, g[ord[k]]))
  }

  lemma SortedIs(g: Graph, ord: seq<nat>)
    requires Wf(g) && Distinct(ord) && DepsFirst(g, ord) && forall x :: x in ord ==> x < |g|
    ensures Sorted(g, ord)
  {
    forall k | 0 <= k < |ord| ensures ord[k] < |g| && forall d :: d in g[ord[k]] ==> d in ord {
      assert ord[k] in ord;
      forall d | d in g[ord[k]] ensures d in ord {
        assert d in ord[..k];
      }
    }
  }

  lemma RelabelOrdered(g: Graph, ord: seq<nat>)
    requires Sorted(g, ord)
    ensures Ordered(Relabel(g, ord))
  {
    var r := Relabel(g, ord);
    forall k, i | 0 <= k < |r| && 0 <= i < |r[k]| ensures r[k][i] < k {
      var d := g[ord[k]][i];
      assert d in ord[..k];
      var j :| 0 <= j < k && ord[..k][j] == d;
      assert ord[j] == ord[r[k][i]];
    }
  }

  /** A step under one name is a step under the other. */
  lemma StepUp(g: Graph, ord: seq<nat>, a: nat, d: nat)
    requires Sorted(g, ord) && a < |ord| && d in Relabel(g, ord)[a]
    ensures d < |ord| && ord[d] in g[ord[a]]
  {
    var i :| 0 <= i < |Relabel(g, ord)[a]| && Relabel(g, ord)[a][i] == d;
    assert g[ord[a]][i] in g[ord[a]];
  }

  lemma StepDown(g: Graph, ord: seq<nat>, a: nat, x: nat) returns (d: nat)
    requires Sorted(g, ord) && a < |ord| && x in g[ord[a]]
    ensures d < |ord| && ord[d] == x && d in Relabel(g, ord)[a]
  {
    var i :| 0 <= i < |g[ord[a]]| && g[ord[a]][i] == x;
    d := Positions(ord, g[ord[a]])[i];
  }

  /** r is g under the names of ord. */
  ghost predicate Renames(g: Graph, r: Graph, ord: seq<nat>) {
    && |r| == |ord| && Distinct(ord) && (forall a :: 0 <= a < |ord| ==> ord[a] < |g|)
    && (forall a, d :: 0 <= a < |ord| && d in r[a] ==> Up(g, ord, a, d))
    && (forall a, x :: 0 <= a < |ord| && x in g[ord[a]] ==> Down(r, ord, a, x))
  }

  ghost predicate Up(g: Graph, ord: seq<nat>, a: nat, d: nat)
    requires a < |ord| && ord[a] < |g|
  {
    d < |ord| && ord[d] in g[ord[a]]
  }

  ghost predicate Down(r: Graph, ord: seq<nat>, a: nat, x: nat)
    requires a < |r|
  {
    exists d :: d in r[a] && d < |ord| && ord[d] == x
  }

  lemma RelabelRenames(g: Graph, ord: seq<nat>)
    requires Sorted(g, ord)
    ensures Renames(g, Relabel(g, ord), ord)
  {
    var r := Relabel(g, ord);
    forall a, d | 0 <= a < |ord| && d in r[a] ensures Up(g, ord, a, d) { StepUp(g, ord, a, d); }
    forall a, x | 0 <= a < |ord| && x in g[ord[a]] ensures Down(r, ord, a, x) { var d := StepDown(g, ord, a, x); }
  }

  lemma {:induction false} ChainUp(g: Graph, r: Graph, ord: seq<nat>, a: nat, b: nat, n: nat)
    requires Renames(g, r, ord) && a < |ord| && b < |ord| && Chain(r, a, b, n)
    ensures Chain(g, ord[a], ord[b], n)
    decreases n
  {
    if n > 0 {
      var d :| d in r[a] && Chain(r, d, b, n - 1);
      assert Up(g, ord, a, d);
      ChainUp(g, r, ord, d, b, n - 1);
    }
  }

  lemma {:induction false} ChainDown(g: Graph, r: Graph, ord: seq<nat>, a: nat, b: nat, n: nat)
    requires Renames(g, r, ord) && a < |ord| && b < |ord| && Chain(g, ord[a], ord[b], n)
    ensures Chain(r, a, b, n)
    decreases n
  {
    if n > 0 {
      var x :| x in g[ord[a]] && Chain(g, x, ord[b], n - 1);
      assert Down(r, ord, a, x);
      var d :| d in r[a] && d < |ord| && ord[d] == x;
      ChainDown(g, r, ord, d, b, n - 1);
    }
  }

  /** Transitive dependence is the same under either name. */
  lemma SameDependence(g: Graph, r: Graph, ord: seq<nat>, a: nat, b: nat)
    requires Renames(g, r, ord) && a < |ord| && b < |ord|
    ensures DependsOn(r, a, b) <==> DependsOn(g, ord[a], ord[b])
  {
    if DependsOn(r, a, b) {
      var n :| n >= 1 && Chain(r, a, b, n);
      ChainUp(g, r, ord, a, b, n);
    }
    if DependsOn(g, ord[a], ord[b]) {
      var n :| n >= 1 && Chain(g, ord[a], ord[b], n);
      ChainDown(g, r, ord, a, b, n);
    }
  }

  /** The skipped targets are exactly those with a failed transitive dependency,
      in the graph as declared. */
  ghost predicate SkippedByFailure(g: Graph, ord: seq<nat>, st: seq<State>)
    requires |st| == |ord|
  {
    forall a :: 0 <= a < |ord| ==>
      (st[a] == Skipped <==> exists b: nat :: b < |ord| && DependsOn(g, ord[a], ord[b]) && st[b] == Failed)
  }

  lemma SkipsCarryOver(g: Graph, r: Graph, ord: seq<nat>, st: seq<State>)
    requires Renames(g, r, ord) && |st| == |ord| && SkipsMatchFailures(r, st)
    ensures SkippedByFailure(g, ord, st)
  {
    forall a | 0 <= a < |ord|
      ensures st[a] == Skipped <==> exists b: nat :: b < |ord| && DependsOn(g, ord[a], ord[b]) && st[b] == Failed
    {
      forall b: nat | b < |ord| ensures DependsOn(r, a, b) <==>
        DependsOn(g, ord[a], ord[b]) { SameDependence(g, r, ord, a, b); }
      if st[a] == Skipped {
        var d: nat :| d < |r| && DependsOn(r, a, d) && st[d] == Failed;
        assert DependsOn(g, ord[a], ord[d]);
      }
    }
  }

  /** A build of the chosen roots: refused exactly when they reach a cycle;
      otherwise it ends with a state for every target they reach. */
  method RunGraph(g: Graph, roots: seq<nat>, jobs: nat, keepGoing: bool)
    returns (ok: bool, ord: seq<nat>, st: seq<State>, failures: nat,
             ghost states: seq<seq<State>>, ghost log: seq<Event>)
    requires Wf(g) && jobs > 1 && forall i :: 0 <= i < |roots| ==> roots[i] < |g|
    ensures ok <==> !CycleFrom(g, set r | r in roots)
    ensures ok ==> |st| == |ord| && Sorted(g, ord) && Ordered(Relabel(g, ord)) && failures == Count(st, Failed)
    ensures ok ==> forall x :: x in ord <==> exists r :: r in roots && Reaches(g, r, x)
    ensures ok ==> Legal(Relabel(g, ord), jobs, keepGoing, states, log) && st == states[|log|]
    ensures ok && !HasStopped(keepGoing, log) ==> Schedule.Finished(st) && SkippedByFailure(g, ord, st)
    ensures ok && HasStopped(keepGoing, log) ==> exists j :: EndsAt(states, log, st, j)
    ensures ok && failures == 0 ==> forall k :: 0 <= k < |ord| ==> st[k] == Done
  {
    ord, st, failures, states, log := [], [], 0, [], [];
    var sorter := new Sorter(g);
    assert sorter.order[..0] == [];
    ok := sorter.Sort(roots);
    if !ok { return; }
    ord := sorter.order[..sorter.n];
    forall x | x in ord ensures x < |g| { ReachedInside(g, roots, x); }
    SortedIs(g, ord);
    RelabelOrdered(g, ord);
    var d := new Dispatcher(Relabel(g, ord), jobs, keepGoing);
    d.Run();
    st, failures, states, log := d.state, d.failures, d.states, d.log;
    RelabelRenames(g, ord);
    if !HasStopped(keepGoing, log) { SkipsCarryOver(g, d.g, ord, st); }
  }

  lemma ReachedInside(g: Graph, roots: seq<nat>, x: nat)
    requires exists r :: r in roots && Reaches(g, r, x)
    ensures x < |g|
  {
    var r :| r in roots && Reaches(g, r, x);
    var n :| Chain(g, r, x, n);
    ChainInside(g, r, x, n);
  }

  lemma {:induction false} ChainInside(g: Graph, a: nat, b: nat, n: nat)
    requires Chain(g, a, b, n)
    ensures b < |g|
    decreases n
  {
    if n > 0 {
      var d :| d in g[a] && Chain(g, d, b, n - 1);
      ChainInside(g, d, b, n - 1);
    }
  }
}
