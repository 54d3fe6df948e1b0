/** Finite graphs on 0..n, their topological orders, and their cycles. */
module Graphs {

  /** The pairs (u, v) with an edge from u to v. */
  type Edges = set<(nat, nat)>

  ghost predicate IsPermutation(order: seq<nat>, n: nat) {
    && |order| == n
    && (forall i :: 0 <= i < n ==> order[i] < n)
    && (forall i, j :: 0 <= i < j < n ==> order[i] != order[j])
  }

  /** Every edge points forward. */
  ghost predicate Topological(order: seq<nat>, n: nat, edge: Edges) {
    && IsPermutation(order, n)
    && (forall i, j :: 0 <= i < n && 0 <= j < n && (order[i], order[j]) in edge ==> i < j)
  }

  /** A closed walk of at least one edge. */
  ghost predicate Cycle(walk: seq<nat>, n: nat, edge: Edges) {
    && |walk| >= 2 && walk[0] == walk[|walk| - 1]
    && (forall i :: 0 <= i < |walk| ==> walk[i] < n)
    && (forall i :: 0 <= i < |walk| - 1 ==> (walk[i], walk[i + 1]) in edge)
  }

  ghost predicate Acyclic(n: nat, edge: Edges) {
    forall walk :: !Cycle(walk, n, edge)
  }

  // ----- a permutation lists everything -----

  lemma {:induction false} DistinctBelow(s: seq<nat>, n: nat)
    requires (forall i :: 0 <= i < |s| ==> s[i] < n) && (forall i, j :: 0 <= i < j < |s| ==> s[i] != s[j])
    ensures |s| <= n
    ensures |s| == n ==> forall x :: 0 <= x < n ==> x in s
  {
    var elems := set x | x in s;
    SizeOfDistinct(s);
    SubsetSize(elems, Below(n));
    if |s| == n {
      forall x | 0 <= x < n ensures x in s {
        assert x in elems;
      }
    }
  }

  ghost function Below(n: nat): (r: set<nat>)
    ensures |r| == n && forall x: nat :: x in r <==> x < n
  {
    if n == 0 then {} else Below(n - 1) + {n - 1}
  }

  lemma {:induction false} SizeOfDistinct<T>(s: seq<T>)
    requires forall i, j :: 0 <= i < j < |s| ==> s[i] != s[j]
    ensures |set x | x in s| == |s|
  {
    if s != [] {
      var init, last := s[..|s| - 1], s[|s| - 1];
      SizeOfDistinct(init);
      assert (set x | x in s) == (set x | x in init) + {last};
    }
  }

  lemma SubsetSize<T>(a: set<T>, b: set<T>)
    requires a <= b
    ensures |a| <= |b|
    ensures |a| == |b| ==> a == b
  {
    assert b == a + (b - a);
  }

  lemma PositionOf(order: seq<nat>, n: nat, v: nat) returns (i: nat)
    requires IsPermutation(order, n) && v < n
    ensures i < n && order[i] == v
  {
    DistinctBelow(order, n);
    assert v in order;
    i :| 0 <= i < |order| && order[i] == v;
  }

  // ----- a topological order excludes cycles -----

  lemma OrderExcludesCycles(order: seq<nat>, n: nat, edge: Edges)
    requires Topological(order, n, edge)
    ensures Acyclic(n, edge)
  {
    forall walk ensures !Cycle(walk, n, edge) {
      if Cycle(walk, n, edge) {
        var p := WalkPositions(order, n, edge, walk, |walk| - 1);
      }
    }
  }

  /** Along a walk the positions in a topological order grow, so it never returns. */
  lemma {:induction false} WalkPositions(order: seq<nat>, n: nat, edge: Edges, walk: seq<nat>, k: nat) returns (p: seq<nat>)
    requires Topological(order, n, edge) && k < |walk|
    requires forall j :: 0 <= j < |walk| ==> walk[j] < n
    requires forall j :: 0 <= j < |walk| - 1 ==> (walk[j], walk[j + 1]) in edge
    ensures |p| == k + 1 && forall j :: 0 <= j <= k ==> p[j] < n && order[p[j]] == walk[j]
    ensures k > 0 ==> p[0] < p[k]
    decreases k
  {
    var i := PositionOf(order, n, walk[k]);
    if k == 0 {
      p := [i];
    } else {
      var q := WalkPositions(order, n, edge, walk, k - 1);
      assert (walk[k - 1], walk[k - 1 + 1]) in edge;
      p := q + [i];
    }
  }

  // ----- a stuck set contains a cycle -----

  ghost predicate FedFrom(stuck: set<nat>, edge: Edges, v: nat) {
    exists u :: u in stuck && (u, v) in edge
  }

  /** If every vertex of a nonempty set has a predecessor in it, there is a cycle. */
  lemma StuckMeansCycle(stuck: set<nat>, n: nat, edge: Edges)
    requires stuck != {} && forall v :: v in stuck ==> v < n && FedFrom(stuck, edge, v)
    ensures !Acyclic(n, edge)
  {
    hide FedFrom, Acyclic;
    var v :| v in stuck;
    var walk := WalkBack(stuck, n, edge, v, n);
    RepeatGivesCycle(walk, n, edge);
  }

  /** A walk of k edges that ends at v, inside the set. */
  lemma {:induction false} WalkBack(stuck: set<nat>, n: nat, edge: Edges, v: nat, k: nat) returns (walk: seq<nat>)
    requires v in stuck && forall v :: v in stuck ==> v < n && FedFrom(stuck, edge, v)
    ensures |walk| == k + 1 && walk[k] == v
    ensures forall i :: 0 <= i < |walk| ==> walk[i] < n
    ensures forall i :: 0 <= i < |walk| - 1 ==> (walk[i], walk[i + 1]) in edge
    decreases k
  {
    hide FedFrom;
    if k == 0 {
      walk := [v];
    } else {
      var u := Predecessor(stuck, edge, v);
      var front := WalkBack(stuck, n, edge, u, k - 1);
      walk := front + [v];
    }
  }

  lemma Predecessor(stuck: set<nat>, edge: Edges, v: nat) returns (u: nat)
    requires FedFrom(stuck, edge, v)
    ensures u in stuck && (u, v) in edge
  {
    u :| u in stuck && (u, v) in edge;
  }

  /** n + 1 vertices below n repeat, and the walk between two visits is a cycle. */
  lemma RepeatGivesCycle(walk: seq<nat>, n: nat, edge: Edges)
    requires |walk| == n + 1 && (forall i :: 0 <= i < |walk| ==> walk[i] < n)
    requires forall i :: 0 <= i < |walk| - 1 ==> (walk[i], walk[i + 1]) in edge
    ensures !Acyclic(n, edge)
  {
    if forall i, j :: 0 <= i < j < |walk| ==> walk[i] != walk[j] {
      DistinctBelow(walk, n);
    } else {
      var i, j :| 0 <= i < j < |walk| && walk[i] == walk[j];
      var c := walk[i..j + 1];
      forall k | 0 <= k < |c| - 1 ensures (c[k], c[k + 1]) in edge {
        assert c[k] == walk[i + k] && c[k + 1] == walk[i + k + 1];
      }
      assert Cycle(c, n, edge);
    }
  }
}
