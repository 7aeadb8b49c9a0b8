/** Depth-first topological sort with cycle detection (src/build.c:3334-3349 and
    the root loop of run_graph, 3414-3441). */
module TopoSort {
  import opened Common
  import opened Targets

  /** Every dependency of an entry stands before it. */
  ghost predicate DepsFirst(g: Graph, ord: seq<nat>) {
    forall k, d :: 0 <= k < |ord| && ord[k] < |g| && d in g[ord[k]] ==> d in ord[..k]
  }

  /** Finished targets (2) are exactly the order so far; started ones (1) are
      exactly the callers of the visit. */
  ghost predicate Marks(g: Graph, vis: seq<int>, ord: seq<nat>, active: set<nat>) {
    && |vis| == |g|
    && (forall t :: 0 <= t < |g| ==> vis[t] == (if t in ord then 2 else if t in active then 1 else 0))
    && (forall t :: t in ord ==> t < |g| && t !in active)
    && (forall t :: t in active ==> t < |g|)
    && Distinct(ord) && DepsFirst(g, ord)
  }

  /** An order with every dependency first is closed under chains and has no
      chain back to where it started. */
  lemma {:induction false} ChainsGoBack(g: Graph, ord: seq<nat>, k: nat, b: nat, n: nat)
    requires Wf(g) && DepsFirst(g, ord) && k < |ord| && Chain(g, ord[k], b, n)
    ensures if n == 0 then b == ord[k] else b in ord[..k]
    decreases n
  {
    if n > 0 {
      var d :| d in g[ord[k]] && Chain(g, d, b, n - 1);
      assert d in ord[..k];
      var j :| 0 <= j < |ord[..k]| && ord[..k][j] == d;
      assert ord[j] == d;
      ChainsGoBack(g, ord, j, b, n - 1);
      if n > 1 {
        assert b in ord[..j];
        var i :| 0 <= i < |ord[..j]| && ord[..j][i] == b;
        assert ord[..k][i] == b;
      }
    }
  }

  lemma ClosedAcyclic(g: Graph, ord: seq<nat>, a: nat, b: nat)
    requires Wf(g) && DepsFirst(g, ord) && Distinct(ord) && a in ord && Reaches(g, a, b)
    ensures b in ord && !DependsOn(g, b, b)
  {
    var k :| 0 <= k < |ord| && ord[k] == a;
    var n :| Chain(g, a, b, n);
    ChainsGoBack(g, ord, k, b, n);
    if n > 0 {
      var i :| 0 <= i < |ord[..k]| && ord[..k][i] == b;
      assert ord[i] == b;
    }
    var m :| 0 <= m < |ord| && ord[m] == b;
    assert b !in ord[..m];
    if DependsOn(g, b, b) {
      var c :| c >= 1 && Chain(g, b, b, c);
      ChainsGoBack(g, ord, m, b, c);
    }
  }

  /** A cycle that some target of from can run into. */
  ghost predicate CycleFrom(g: Graph, from: set<nat>) {
    exists r, x :: r in from && Reaches(g, r, x) && DependsOn(g, x, x)
  }

  lemma CycleFromDep(g: Graph, t: nat, d: nat)
    requires Wf(g) && t < |g| && d in g[t] && CycleFrom(g, {d})
    ensures CycleFrom(g, {t})
  {
    var r, x :| r in {d} && Reaches(g, r, x) && DependsOn(g, x, x);
    ReachesStep(g, t, d);
    ReachesTrans(g, t, d, x);
  }

  lemma Started(g: Graph, vis: seq<int>, ord: seq<nat>, active: set<nat>, t: nat)
    requires Marks(g, vis, ord, active) && t < |g| && vis[t] == 0
    ensures Marks(g, vis[t := 1], ord, active + {t})
  {
  }

  lemma Finished(g: Graph, vis: seq<int>, ord: seq<nat>, active: set<nat>, t: nat)
    requires Marks(g, vis, ord, active + {t}) && t < |g| && t !in active
    requires forall d :: d in g[t] ==> d in ord
    ensures |ord| < |g| && Marks(g, vis[t := 2], ord + [t], active)
  {
    RoomLeft(ord, |g|, t);
    var o := ord + [t];
    forall k, d | 0 <= k < |o| && o[k] < |g| && d in g[o[k]] ensures d in o[..k] {
      if k < |ord| {
        assert o[k] == ord[k] && o[..k] == ord[..k];
      } else {
        assert o[..k] == ord;
      }
    }
    assert forall i :: 0 <= i < |ord| ==> ord[i] in ord;
  }

  class Sorter {
    const g: Graph
    const visited: array<int>
    const order: array<nat>
    var n: nat

    constructor (g: Graph)
      ensures this.g == g && n == 0 && visited.Length == |g| && order.Length == |g| && fresh(visited) && fresh(order)
      ensures forall t :: 0 <= t < |g| ==> visited[t] == 0
    {
      this.g := g;
      visited := new int[|g|](_ => 0);
      order := new nat[|g|](_ => 0);
      n := 0;
    }

    /** The targets no visit is under way for. */
    ghost function Idle(active: set<nat>): set<nat> {
      set i: nat | i < |g| && i !in active
    }

    ghost predicate Ready(active: set<nat>)
      reads this, visited, order
    {
      Wf(g) && n <= order.Length == |g| && Marks(g, visited[..], order[..n], active)
    }

    /** topo_visit; active are the targets whose visit called this one, each of
        which depends on t. */
    method TopoVisit(t: nat, ghost active: set<nat>) returns (ok: bool)
      requires Ready(active) && t < |g|
      requires forall a :: a in active ==> DependsOn(g, a, t)
      modifies visited, order, this`n
      ensures ok ==> Ready(active) && t in order[..n]
      ensures ok ==> old(n) <= n && order[..old(n)] == old(order[..n])
      ensures ok ==> forall x :: x in order[..n] ==> x in old(order[..n]) || Reaches(g, t, x)
      ensures !ok ==> CycleFrom(g, {t})
      decreases Idle(active), 1
    {
      ReachesSelf(g, t);
      if visited[t] == 2 { return true; }
      if visited[t] == 1 {
        assert t in active;
        return false;
      }
      ghost var vis, ord := visited[..], order[..n];
      visited[t] := 1;
      assert visited[..] == vis[t := 1];
      Started(g, vis, ord, active, t);
      ok := VisitDeps(t, active);
      if !ok { return; }
      vis, ord := visited[..], order[..n];
      Finished(g, vis, ord, active, t);
      visited[t] := 2;
      order[n] := t;
      n := n + 1;
      assert visited[..] == vis[t := 2] && order[..n] == ord + [t];
    }

    /** The loop over the dependencies of t. */
    method VisitDeps(t: nat, ghost active: set<nat>) returns (ok: bool)
      requires t < |g| && t !in active && Ready(active + {t})
      requires forall a :: a in active ==> DependsOn(g, a, t)
      modifies visited, order, this`n
      ensures ok ==> Ready(active + {t}) && forall d :: d in g[t] ==> d in order[..n]
      ensures ok ==> old(n) <= n && order[..old(n)] == old(order[..n])
      ensures ok ==> forall x :: x in order[..n] ==> x in old(order[..n]) || Reaches(g, t, x)
      ensures !ok ==> CycleFrom(g, {t})
      decreases Idle(active), 0
    {
      ghost var act := active + {t};
      for i := 0 to |g[t]|
        invariant Ready(act) && forall d :: d in g[t][..i] ==> d in order[..n]
        invariant old(n) <= n && order[..old(n)] == old(order[..n])
        invariant forall x :: x in order[..n] ==> x in old(order[..n]) || Reaches(g, t, x)
      {
        var d := g[t][i];
        DepReached(t, d, active);
        ghost var before := order[..n];
        assert Idle(act) < Idle(active) by { assert t in Idle(active) && t !in Idle(act); }
        ok := TopoVisit(d, act);
        if !ok {
          CycleFromDep(g, t, d);
          return;
        }
        assert before <= order[..n];
        forall x | x in order[..n] && x !in before ensures Reaches(g, t, x) { ReachesTrans(g, t, d, x); }
      }
      ok := true;
    }

    lemma DepReached(t: nat, d: nat, active: set<nat>)
      requires Wf(g) && t < |g| && d in g[t]
      requires forall a :: a in active ==> DependsOn(g, a, t)
      ensures d < |g| && Reaches(g, t, d) && forall a :: a in active + {t} ==> DependsOn(g, a, d)
    {
      ReachesStep(g, t, d);
      forall a | a in active ensures DependsOn(g, a, d) { ReachesTrans(g, a, t, d); }
    }

    /** run_graph's ordering: a single chosen target, or all in turn. It reports a
        cycle exactly when one can be reached from the chosen roots; otherwise the
        order is those roots and all they reach, each once, dependencies first. */
    method Sort(roots: seq<nat>) returns (ok: bool)
      requires Ready({}) && n == 0 && forall i :: 0 <= i < |roots| ==> roots[i] < |g|
      modifies visited, order, this`n
      ensures ok <==> !CycleFrom(g, set r | r in roots)
      ensures ok ==> n <= order.Length && Distinct(order[..n]) && DepsFirst(g, order[..n])
      ensures ok ==> forall x :: x in order[..n] <==> exists r :: r in roots && Reaches(g, r, x)
    {
      ok := true;
      for i := 0 to |roots|
        invariant ok ==> Ready({}) && forall r :: r in roots[..i] ==> r in order[..n]
        invariant ok ==> forall x :: x in order[..n] ==> exists r :: r in roots && Reaches(g, r, x)
        invariant !ok ==> CycleFrom(g, set r | r in roots)
      {
        if !ok { break; }
        ghost var before := order[..n];
        ok := TopoVisit(roots[i], {});
        if ok {
          assert before <= order[..n];
          forall x | x in order[..n] && x !in before ensures exists r :: r in roots && Reaches(g, r, x) {
            assert roots[i] in roots;
          }
        } else {
          ghost var r, x :| r in {roots[i]} && Reaches(g, r, x) && DependsOn(g, x, x);
          assert r in (set r | r in roots);
        }
      }
      if ok {
        assert roots[..|roots|] == roots;
        SortedRoots(order[..n], roots);
      }
    }

    lemma SortedRoots(ord: seq<nat>, roots: seq<nat>)
      requires Wf(g) && DepsFirst(g, ord) && Distinct(ord) && forall r :: r in roots ==> r in ord
      ensures !CycleFrom(g, set r | r in roots)
      ensures forall x :: (exists r :: r in roots && Reaches(g, r, x)) ==> x in ord
    {
      forall r, x | r in roots && Reaches(g, r, x) ensures x in ord && !DependsOn(g, x, x) {
        ClosedAcyclic(g, ord, r, x);
      }
    }
  }
}
