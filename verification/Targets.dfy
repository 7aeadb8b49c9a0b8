/** Build targets as a graph: target t depends on every member of deps[t]. Targets
    are pointers in the source and indices here. */
module Targets {
  import opened Common

  type Graph = seq<seq<nat>>

  ghost predicate Wf(g: Graph) {
    forall t, i :: 0 <= t < |g| && 0 <= i < |g[t]| ==> g[t][i] < |g|
  }

  /** A dependency chain of n steps from a to b. */
  ghost predicate Chain(g: Graph, a: nat, b: nat, n: nat)
    decreases n
  {
    a < |g| && if n == 0 then a == b else exists d :: d in g[a] && Chain(g, d, b, n - 1)
  }

  ghost predicate Reaches(g: Graph, a: nat, b: nat) {
    exists n :: Chain(g, a, b, n)
  }

  /** b is a transitive dependency of a. */
  ghost predicate DependsOn(g: Graph, a: nat, b: nat) {
    exists n :: n >= 1 && Chain(g, a, b, n)
  }

  lemma {:induction false} ChainJoins(g: Graph, a: nat, b: nat, c: nat, n: nat, m: nat)
    requires Chain(g, a, b, n) && Chain(g, b, c, m)
    ensures Chain(g, a, c, n + m)
    decreases n
  {
    if n > 0 {
      var d :| d in g[a] && Chain(g, d, b, n - 1);
      ChainJoins(g, d, b, c, n - 1, m);
    }
  }

  lemma ReachesTrans(g: Graph, a: nat, b: nat, c: nat)
    requires Reaches(g, a, b) && Reaches(g, b, c)
    ensures Reaches(g, a, c)
    ensures DependsOn(g, a, b) || DependsOn(g, b, c) ==> DependsOn(g, a, c)
  {
    var n :| Chain(g, a, b, n) && (DependsOn(g, a, b) ==> n >= 1);
    var m :| Chain(g, b, c, m) && (DependsOn(g, b, c) ==> m >= 1);
    ChainJoins(g, a, b, c, n, m);
  }

  lemma ReachesStep(g: Graph, a: nat, d: nat)
    requires Wf(g) && a < |g| && d in g[a]
    ensures d < |g| && Reaches(g, a, d) && DependsOn(g, a, d)
  {
    assert Chain(g, d, d, 0);
    assert Chain(g, a, d, 1);
  }

  lemma ReachesSelf(g: Graph, a: nat)
    requires a < |g|
    ensures Reaches(g, a, a)
  {
    assert Chain(g, a, a, 0);
  }

  // ---------- counting targets ----------

  /** Removing one value from a duplicate-free list. */
  function Without(s: seq<nat>, x: nat): seq<nat> {
    if s == [] then []
    else if s[0] == x then s[1..]
    else [s[0]] + Without(s[1..], x)
  }

  lemma {:induction false} WithoutShrinks(s: seq<nat>, x: nat)
    requires Distinct(s)
    ensures |Without(s, x)| == if x in s then |s| - 1 else |s|
    ensures Distinct(Without(s, x)) && forall y :: y in Without(s, x) <==> y in s && y != x
  {
    if s != [] {
      var t := s[1..];
      assert forall y :: y in s <==> y == s[0] || y in t;
      assert s[0] !in t;
      if s[0] != x {
        WithoutShrinks(t, x);
        var r := Without(t, x);
        assert forall i :: 0 <= i < |r| ==> r[i] in r && r[i] != s[0];
      }
    }
  }

  lemma HasMember(s: seq<nat>)
    requires s != []
    ensures exists x :: x in s
  {
    assert s[0] in s;
  }

  /** Distinct numbers below n are at most n. */
  lemma {:induction false} Pigeonhole(s: seq<nat>, n: nat)
    requires Distinct(s) && forall x :: x in s ==> x < n
    ensures |s| <= n
    decreases n
  {
    if n > 0 {
      WithoutShrinks(s, n - 1);
      Pigeonhole(Without(s, n - 1), n - 1);
    } else if s != [] {
      HasMember(s);
    }
  }

  /** ... and fewer when one of them is missing. */
  lemma RoomLeft(s: seq<nat>, n: nat, t: nat)
    requires Distinct(s) && (forall x :: x in s ==> x < n) && t < n && t !in s
    ensures |s| < n
  {
    var r := s + [t];
    assert forall i :: 0 <= i < |s| ==> s[i] in s;
    Pigeonhole(r, n);
  }
}
