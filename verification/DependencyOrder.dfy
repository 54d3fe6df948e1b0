/** Ordering the modules so that each comes after what it depends on. */
module DependencyOrder {
  import opened Wrappers
  import opened ModuleKeys
  import opened ModuleGraph
  import opened Graphs

  // ----- the dependency graph -----

  ghost function Keys(slots: seq<ModuleSlot>): set<string> {
    set s | s in slots :: s.key
  }

  ghost predicate DistinctKeys(slots: seq<ModuleSlot>) {
    forall i, j :: 0 <= i < j < |slots| ==> slots[i].key != slots[j].key
  }

  /** u is the nearest listed ancestor of v. */
  ghost predicate ParentEdge(slots: seq<ModuleSlot>, u: nat, v: nat)
    requires u < |slots| && v < |slots|
  {
    NearestIn(slots[v].key, Keys(slots)) == Some(slots[u].key)
  }

  /** v's configuration names u among the modules it depends on. */
  ghost predicate DependEdge(slots: seq<ModuleSlot>, tree: map<string, ModuleConfig>, u: nat, v: nat)
    requires u < |slots| && v < |slots|
  {
    DependsOn(slots[v].key, tree, slots[u].key)
  }

  /** The module's configuration names the other key. */
  ghost predicate DependsOn(key: string, tree: map<string, ModuleConfig>, other: string) {
    key in tree && tree[key].depends.Some? && other in tree[key].depends.value
  }

  function DependsOf(key: string, tree: map<string, ModuleConfig>): seq<string> {
    if key in tree && tree[key].depends.Some? then tree[key].depends.value else []
  }

  ghost function DependencyEdges(slots: seq<ModuleSlot>, tree: map<string, ModuleConfig>): Edges {
    set u: nat, v: nat | u < |slots| && v < |slots| && (ParentEdge(slots, u, v) || DependEdge(slots, tree, u, v)) :: (u, v)
  }

  // ----- adjacency lists and indegrees -----

  type Adjacency = seq<seq<nat>>

  ghost predicate InRange(adj: Adjacency) {
    forall u, v :: 0 <= u < |adj| && v in adj[u] ==> v < |adj|
  }

  /** The edges into v, counted with multiplicity, from the first k vertices that are not done. */
  ghost function Pending(adj: Adjacency, v: nat, done: set<nat>, k: nat): nat
    requires k <= |adj|
  {
    if k == 0 then 0
    else Pending(adj, v, done, k - 1) + (if k - 1 in done then 0 else multiset(adj[k - 1])[v])
  }

  lemma {:induction false} PendingZero(adj: Adjacency, v: nat, done: set<nat>, k: nat)
    requires k <= |adj|
    ensures Pending(adj, v, done, k) == 0 <==> forall u :: 0 <= u < k && v in adj[u] ==> u in done
  {
    if k > 0 {
      PendingZero(adj, v, done, k - 1);
      assert v in adj[k - 1] <==> v in multiset(adj[k - 1]);
    }
  }

  lemma {:induction false} PendingDone(adj: Adjacency, v: nat, done: set<nat>, u: nat, k: nat)
    requires k <= |adj| && u < |adj| && u !in done
    ensures Pending(adj, v, done, k) == Pending(adj, v, done + {u}, k) + (if u < k then multiset(adj[u])[v] else 0)
  {
    if k > 0 {
      PendingDone(adj, v, done, u, k - 1);
    }
  }

  lemma {:induction false} PendingPush(adj: Adjacency, v: nat, u: nat, x: nat, k: nat)
    requires k <= |adj| && u < |adj|
    ensures Pending(adj[u := adj[u] + [x]], v, {}, k) == Pending(adj, v, {}, k) + (if u < k && v == x then 1 else 0)
  {
    if k > 0 {
      PendingPush(adj, v, u, x, k - 1);
    }
  }

  lemma {:induction false} PendingEmpty(adj: Adjacency, v: nat, k: nat)
    requires k <= |adj| && forall u :: 0 <= u < |adj| ==> adj[u] == []
    ensures Pending(adj, v, {}, k) == 0
  {
    if k > 0 {
      PendingEmpty(adj, v, k - 1);
    }
  }

  /** Lists and counts that describe the same multigraph. */
  ghost predicate Consistent(adj: Adjacency, indegree: seq<nat>) {
    && |adj| == |indegree| && InRange(adj)
    && forall v :: 0 <= v < |adj| ==> indegree[v] == Pending(adj, v, {}, |adj|)
  }

  /** One more edge from u to x. */
  method AddEdge(adj: Adjacency, indegree: seq<nat>, u: nat, x: nat) returns (adj': Adjacency, indegree': seq<nat>)
    requires Consistent(adj, indegree) && u < |adj| && x < |adj|
    ensures Consistent(adj', indegree') && |adj'| == |adj|
    ensures forall a, b :: 0 <= a < |adj| ==> (b in adj'[a] <==> b in adj[a] || (a == u && b == x))
  {
    adj' := adj[u := adj[u] + [x]];
    indegree' := indegree[x := indegree[x] + 1];
    forall v | 0 <= v < |adj| ensures indegree'[v] == Pending(adj', v, {}, |adj|) {
      PendingPush(adj, v, u, x, |adj|);
    }
  }

  /** Where each key is listed. */
  method IndexKeys(slots: seq<ModuleSlot>) returns (index: map<string, nat>)
    requires DistinctKeys(slots)
    ensures index.Keys == Keys(slots)
    ensures forall k :: k in index ==> index[k] < |slots| && slots[index[k]].key == k
  {
    index := map[];
    for i := 0 to |slots|
      invariant index.Keys == Keys(slots[..i])
      invariant forall k :: k in index ==> index[k] < i && slots[index[k]].key == k
    {
      index := index[slots[i].key := i];
      assert slots[..i + 1] == slots[..i] + [slots[i]];
    }
    assert slots[..|slots|] == slots;
  }

  /** Parent edges, then the explicit ones; names that are not listed are passed over. */
  method BuildEdges(slots: seq<ModuleSlot>, tree: map<string, ModuleConfig>) returns (adj: Adjacency, indegree: seq<nat>)
    requires DistinctKeys(slots)
    ensures Consistent(adj, indegree) && |adj| == |slots|
    ensures forall u, v :: 0 <= u < |slots| && 0 <= v < |slots| ==>
              (v in adj[u] <==> ParentEdge(slots, u, v) || DependEdge(slots, tree, u, v))
  {
    hide NearestIn, Pending, Consistent, Keys, ParentEdge;
    var index := IndexKeys(slots);
    var n := |slots|;
    adj, indegree := seq(n, i => []), seq(n, i => 0);
    NoEdges(adj, indegree);
    for i := 0 to n
      invariant Consistent(adj, indegree) && |adj| == n
      invariant forall u, v :: 0 <= u < n && 0 <= v < n ==> (v in adj[u] <==> v < i && ParentEdge(slots, u, v))
    {
      var pk := FindNearest(slots[i].key, index.Keys);
      forall u | 0 <= u < n
        ensures ParentEdge(slots, u, i) <==> pk.Some? && u == index[pk.value]
      {
        ParentIs(slots, u, i, pk, index);
      }
      if pk.Some? {
        adj, indegree := AddEdge(adj, indegree, index[pk.value], i);
      }
    }
    for i := 0 to n
      invariant Consistent(adj, indegree) && |adj| == n
      invariant forall u, v :: 0 <= u < n && 0 <= v < n ==>
                  (v in adj[u] <==> ParentEdge(slots, u, v) || (v < i && DependEdge(slots, tree, u, v)))
    {
      adj, indegree := AddDepends(slots, DependsOf(slots[i].key, tree), i, index, adj, indegree);
    }
  }

  /** The edges into slot `to` from the modules named in `deps`. */
  method AddDepends(slots: seq<ModuleSlot>, deps: seq<string>, to: nat, index: map<string, nat>, adj0: Adjacency, indegree0: seq<nat>)
    returns (adj: Adjacency, indegree: seq<nat>)
    requires Consistent(adj0, indegree0) && |adj0| == |slots| && to < |slots| && DistinctKeys(slots)
    requires index.Keys == Keys(slots) && forall k :: k in index ==> index[k] < |slots| && slots[index[k]].key == k
    ensures Consistent(adj, indegree) && |adj| == |slots|
    ensures forall u, v :: 0 <= u < |slots| && 0 <= v < |slots| ==>
              (v in adj[u] <==> v in adj0[u] || (v == to && slots[u].key in deps))
  {
    hide Pending, Consistent;
    adj, indegree := adj0, indegree0;
    for j := 0 to |deps|
      invariant Consistent(adj, indegree) && |adj| == |slots|
      invariant forall u, v :: 0 <= u < |slots| && 0 <= v < |slots| ==>
                  (v in adj[u] <==> v in adj0[u] || (v == to && slots[u].key in deps[..j]))
    {
      if deps[j] in index {
        adj, indegree := AddEdge(adj, indegree, index[deps[j]], to);
      }
      assert deps[..j + 1] == deps[..j] + [deps[j]];
    }
    assert deps[..|deps|] == deps;
  }

  lemma NoEdges(adj: Adjacency, indegree: seq<nat>)
    requires |adj| == |indegree| && (forall u :: 0 <= u < |adj| ==> adj[u] == [])
    requires forall v :: 0 <= v < |adj| ==> indegree[v] == 0
    ensures Consistent(adj, indegree)
  {
    forall v | 0 <= v < |adj| ensures Pending(adj, v, {}, |adj|) == 0 {
      PendingEmpty(adj, v, |adj|);
    }
  }

  lemma ParentIs(slots: seq<ModuleSlot>, u: nat, v: nat, pk: Option<string>, index: map<string, nat>)
    requires DistinctKeys(slots) && u < |slots| && v < |slots| && pk == NearestIn(slots[v].key, Keys(slots))
    requires index.Keys == Keys(slots) && forall k :: k in index ==> index[k] < |slots| && slots[index[k]].key == k
    ensures pk.Some? ==> pk.value in index
    ensures ParentEdge(slots, u, v) <==> pk.Some? && u == index[pk.value]
  {
    hide NearestIn;
    if pk.Some? && slots[u].key == pk.value {
      SameSlot(slots, u, index[pk.value]);
    }
  }

  lemma SameSlot(slots: seq<ModuleSlot>, a: nat, b: nat)
    requires DistinctKeys(slots) && a < |slots| && b < |slots| && slots[a].key == slots[b].key
    ensures a == b
  {}

  // ----- Kahn's algorithm -----

  /** When both are ready, slot a comes before slot b: the smaller priority, then fewer dots in the key, then the earlier place. */
  ghost predicate Precedes(slots: seq<ModuleSlot>, a: nat, b: nat)
    requires a < |slots| && b < |slots|
  {
    var x, y := slots[a], slots[b];
    var dx, dy := multiset(x.key)['.'], multiset(y.key)['.'];
    x.priority < y.priority || (x.priority == y.priority && (dx < dy || (dx == dy && a < b)))
  }

  lemma BeforeMeans(slots: seq<ModuleSlot>, a: nat, b: nat)
    requires a < |slots| && b < |slots|
    ensures Before(slots, a, b) <==> Precedes(slots, a, b)
  {
    DepthIsDots(slots[a].key);
    DepthIsDots(slots[b].key);
  }

  /** Slot a goes before slot b when both are ready: priority, then depth, then position. */
  predicate Before(slots: seq<ModuleSlot>, a: nat, b: nat)
    requires a < |slots| && b < |slots|
  {
    RankLess(SlotRank(slots[a]), SlotRank(slots[b])) || (SlotRank(slots[a]) == SlotRank(slots[b]) && a < b)
  }

  ghost predicate Elements(order: seq<nat>, n: nat) {
    && (forall i :: 0 <= i < |order| ==> order[i] < n)
    && (forall i, j :: 0 <= i < j < |order| ==> order[i] != order[j])
  }

  /** v is not listed, and everything with an edge to v is. */
  ghost predicate Ready(listed: seq<nat>, edge: Edges, v: nat) {
    v !in listed && forall u: nat :: (u, v) in edge ==> u in listed
  }

  /** Each entry was ready, and was the first of those ready. */
  ghost predicate Greedy(slots: seq<ModuleSlot>, order: seq<nat>, edge: Edges) {
    && Elements(order, |slots|)
    && forall i :: 0 <= i < |order| ==>
         Ready(order[..i], edge, order[i])
         && forall v: nat :: v < |slots| && v != order[i] && Ready(order[..i], edge, v) ==> Precedes(slots, order[i], v)
  }

  /** Compared at the first place where they differ, `order` goes before `other`. */
  ghost predicate LexAtMost(slots: seq<ModuleSlot>, order: seq<nat>, other: seq<nat>) {
    order == other ||
    exists i :: 0 <= i < |order| && i < |other| && order[..i] == other[..i]
                && order[i] < |slots| && other[i] < |slots| && Precedes(slots, order[i], other[i])
  }

  /** Of all orders that respect the edges, the first. */
  ghost predicate LeastTopological(slots: seq<ModuleSlot>, order: seq<nat>, edge: Edges) {
    && Topological(order, |slots|, edge)
    && forall other :: Topological(other, |slots|, edge) ==> LexAtMost(slots, order, other)
  }

  lemma {:induction false} GreedyUpTo(slots: seq<ModuleSlot>, order: seq<nat>, other: seq<nat>, edge: Edges, k: nat)
    requires Greedy(slots, order, edge) && Topological(other, |slots|, edge) && |order| == |slots|
    requires k <= |slots| && forall u: nat, v: nat :: (u, v) in edge ==> u < |slots|
    ensures order[..k] == other[..k] || LexAtMost(slots, order, other)
  {
    if k > 0 {
      GreedyUpTo(slots, order, other, edge, k - 1);
      if order[..k - 1] == other[..k - 1] && order[k - 1] != other[k - 1] {
        ReadyInTopological(other, |slots|, edge, k - 1);
        assert Precedes(slots, order[k - 1], other[k - 1]);
      } else if order[..k - 1] == other[..k - 1] {
        assert order[..k] == order[..k - 1] + [order[k - 1]] && other[..k] == other[..k - 1] + [other[k - 1]];
      }
    }
  }

  /** In a topological order every entry is ready when its turn comes. */
  lemma ReadyInTopological(order: seq<nat>, n: nat, edge: Edges, i: nat)
    requires Topological(order, n, edge) && i < n && forall u: nat, v: nat :: (u, v) in edge ==> u < n
    ensures Ready(order[..i], edge, order[i])
  {
    forall u: nat | (u, order[i]) in edge ensures u in order[..i] {
      var j := PositionOf(order, n, u);
      assert (order[j], order[i]) in edge;
      assert order[..i][j] == u;
    }
  }

  /** A complete greedy listing is a topological order, and the least one. */
  lemma GreedyIsLeast(slots: seq<ModuleSlot>, order: seq<nat>, edge: Edges)
    requires Greedy(slots, order, edge) && |order| == |slots|
    requires forall u: nat, v: nat :: (u, v) in edge ==> u < |slots|
    ensures LeastTopological(slots, order, edge)
  {
    forall i, j | 0 <= i < |order| && 0 <= j < |order| && (order[i], order[j]) in edge ensures i < j {
      assert Ready(order[..j], edge, order[j]);
      var m :| 0 <= m < j && order[..j][m] == order[i];
    }
    forall other | Topological(other, |slots|, edge) ensures LexAtMost(slots, order, other) {
      GreedyUpTo(slots, order, other, edge, |slots|);
      assert order[..|slots|] == order && other[..|slots|] == other;
    }
  }

  lemma BeforeIsTotal(slots: seq<ModuleSlot>, a: nat, b: nat)
    requires a < |slots| && b < |slots| && a != b
    ensures Before(slots, a, b) <==> !Before(slots, b, a)
  {}

  lemma BeforeIsTransitive(slots: seq<ModuleSlot>, a: nat, b: nat, c: nat)
    requires a < |slots| && b < |slots| && c < |slots| && Before(slots, a, b) && Before(slots, b, c)
    ensures Before(slots, a, c)
  {}

  /** The top of the priority queue, which holds the ready slots. */
  method PopLeast(slots: seq<ModuleSlot>, ready: set<nat>) returns (u: nat)
    requires ready != {} && forall v :: v in ready ==> v < |slots|
    ensures u in ready && forall v :: v in ready && v != u ==> Precedes(slots, u, v)
  {
    u :| u in ready;
    var rest := ready - {u};
    while rest != {}
      invariant rest <= ready && u in ready && u !in rest
      invariant forall v :: v in ready - rest && v != u ==> Before(slots, u, v)
      decreases rest
    {
      var v :| v in rest;
      rest := rest - {v};
      BeforeIsTotal(slots, u, v);
      if Before(slots, v, u) {
        forall w | w in ready - rest && w != v ensures Before(slots, v, w) {
          if w != u { BeforeIsTransitive(slots, v, u, w); }
        }
        u := v;
      }
    }
    forall v | v in ready && v != u ensures Precedes(slots, u, v) {
      BeforeMeans(slots, u, v);
    }
  }

  /** The counts left when the slots in `order` are done. */
  ghost predicate Counts(adj: Adjacency, indegree: seq<nat>, order: seq<nat>) {
    |indegree| == |adj| && forall v :: 0 <= v < |adj| ==> indegree[v] == Pending(adj, v, Done(order), |adj|)
  }

  ghost function Done(order: seq<nat>): set<nat> {
    set v | v in order
  }

  ghost predicate ReadySet(ready: set<nat>, order: seq<nat>, indegree: seq<nat>) {
    forall v: nat :: v in ready <==> v < |indegree| && v !in order && indegree[v] == 0
  }

  /** The edges the lists describe. */
  ghost predicate Describes(adj: Adjacency, edge: Edges) {
    forall u: nat, v: nat :: (u, v) in edge <==> u < |adj| && v < |adj| && v in adj[u]
  }

  /** A count of zero means that everything with an edge to v is done. */
  lemma CountZero(adj: Adjacency, edge: Edges, indegree: seq<nat>, order: seq<nat>, v: nat)
    requires Counts(adj, indegree, order) && Describes(adj, edge) && v < |adj|
    ensures indegree[v] == 0 <==> forall u: nat :: (u, v) in edge ==> u in order
  {
    PendingZero(adj, v, Done(order), |adj|);
    if indegree[v] == 0 {
      forall u: nat | (u, v) in edge ensures u in order {
        assert u in Done(order);
      }
    }
  }

  /** Kahn's loop: the listing is greedy, and what it leaves out waits on something left out. */
  method TopoSort(slots: seq<ModuleSlot>, adj: Adjacency, indegree0: seq<nat>, ghost edge: Edges) returns (order: seq<nat>)
    requires Consistent(adj, indegree0) && |adj| == |slots| && Describes(adj, edge)
    ensures Greedy(slots, order, edge)
    ensures forall v: nat :: v < |slots| && v !in order ==> exists u: nat :: u < |slots| && u !in order && (u, v) in edge
  {
    hide Pending, Precedes;
    var n := |slots|;
    var indegree := indegree0;
    var ready: set<nat> := set i: nat | i < n && indegree[i] == 0;
    order := [];
    assert Done([]) == {};
    while ready != {}
      invariant |order| <= n && Elements(order, n) && Greedy(slots, order, edge)
      invariant Counts(adj, indegree, order) && ReadySet(ready, order, indegree)
      invariant forall x :: x in order ==> indegree[x] == 0
      decreases n - |order|
    {
      var u := PopLeast(slots, ready);
      GreedyStep(slots, adj, indegree, order, edge, ready, u);
      ready := ready - {u};
      indegree, ready := Release(adj, indegree, order, ready, u);
      order := order + [u];
      DistinctBelow(order, n);
    }
    forall v: nat | v < n && v !in order
      ensures exists u: nat :: u < n && u !in order && (u, v) in edge
    {
      CountZero(adj, edge, indegree, order, v);
    }
  }

  lemma GreedyStep(slots: seq<ModuleSlot>, adj: Adjacency, indegree: seq<nat>, order: seq<nat>, edge: Edges,
                   ready: set<nat>, u: nat)
    requires Greedy(slots, order, edge) && Counts(adj, indegree, order) && ReadySet(ready, order, indegree)
    requires Describes(adj, edge) && |adj| == |slots| && u in ready
    requires forall v :: v in ready && v != u ==> v < |slots| && Precedes(slots, u, v)
    ensures Greedy(slots, order + [u], edge)
  {
    hide Precedes;
    var next := order + [u];
    forall v: nat | v < |slots| ensures v in ready <==> Ready(order, edge, v) {
      CountZero(adj, edge, indegree, order, v);
    }
    forall i | 0 <= i < |next|
      ensures Ready(next[..i], edge, next[i])
      ensures forall v: nat :: v < |slots| && v != next[i] && Ready(next[..i], edge, v) ==> Precedes(slots, next[i], v)
    {
      if i < |order| {
        assert next[..i] == order[..i];
      } else {
        assert next[..i] == order;
      }
    }
  }

  /** Takes u's edges off the counts; whatever drops to zero becomes ready. */
  method Release(adj: Adjacency, indegree0: seq<nat>, order: seq<nat>, ready0: set<nat>, u: nat)
    returns (indegree: seq<nat>, ready: set<nat>)
    requires InRange(adj) && Counts(adj, indegree0, order) && u < |adj| && u !in order && indegree0[u] == 0
    requires ReadySet(ready0 + {u}, order, indegree0) && u !in ready0
    requires forall x :: x in order ==> x < |adj| && indegree0[x] == 0
    ensures Counts(adj, indegree, order + [u]) && ReadySet(ready, order + [u], indegree)
    ensures forall x :: x in order + [u] ==> indegree[x] == 0
  {
    indegree, ready := indegree0, ready0;
    var n, out := |adj|, adj[u];
    ghost var next := order + [u];
    forall x | 0 <= x < n
      ensures indegree[x] == Pending(adj, x, Done(next), n) + multiset(out[0..])[x]
    {
      assert Done(next) == Done(order) + {u};
      PendingDone(adj, x, Done(order), u, n);
      assert out[0..] == out;
    }
    hide Pending, Done;
    for j := 0 to |out|
      invariant |indegree| == n
      invariant forall x :: 0 <= x < n ==> indegree[x] == Pending(adj, x, Done(next), n) + multiset(out[j..])[x]
      invariant ReadySet(ready, next, indegree)
      invariant forall x :: x in next ==> x < n && indegree[x] == 0
    {
      var v := out[j];
      assert out[j..] == [v] + out[j + 1..];
      assert v in adj[u] && multiset(out[j..])[v] >= 1;
      indegree := indegree[v := indegree[v] - 1];
      if indegree[v] == 0 {
        ready := ready + {v};
      }
    }
    assert out[|out|..] == [];
  }

  // ----- the ordering of the modules -----

  /** The slots in their new order, and the order itself. */
  ghost predicate Reordered(sorted: seq<ModuleSlot>, slots: seq<ModuleSlot>, order: seq<nat>) {
    IsPermutation(order, |slots|) && |sorted| == |slots| && forall i :: 0 <= i < |slots| ==> sorted[i] == slots[order[i]]
  }

  /** Reorders the slots if and only if the dependencies have no cycle, and then into the first
      of all orders that respect them; on a cycle it leaves the slots as they are. */
  method ResolveDepends(slots: seq<ModuleSlot>, tree: map<string, ModuleConfig>)
    returns (sorted: seq<ModuleSlot>, ok: bool, ghost order: seq<nat>)
    requires DistinctKeys(slots)
    ensures ok <==> Acyclic(|slots|, DependencyEdges(slots, tree))
    ensures !ok ==> sorted == slots
    ensures ok ==> Reordered(sorted, slots, order) && LeastTopological(slots, order, DependencyEdges(slots, tree))
  {
    hide NearestIn, Precedes, Pending, Acyclic, Topological, LexAtMost, Greedy;
    var adj, indegree := BuildEdges(slots, tree);
    ghost var edge := DependencyEdges(slots, tree);
    assert Describes(adj, edge) by { hide Consistent, ParentEdge, DependEdge; }
    var list := TopoSort(slots, adj, indegree, edge);
    order := list;
    GreedyElements(slots, list, edge);
    DistinctBelow(list, |slots|);
    if |list| != |slots| {
      StuckCycle(|slots|, list, edge);
      return slots, false, order;
    }
    GreedyIsLeast(slots, list, edge);
    OrderExcludesCycles(list, |slots|, edge);
    ok := true;
    sorted := [];
    for i := 0 to |list|
      invariant |sorted| == i && forall j :: 0 <= j < i ==> sorted[j] == slots[list[j]]
    {
      sorted := sorted + [slots[list[i]]];
    }
  }

  lemma GreedyElements(slots: seq<ModuleSlot>, order: seq<nat>, edge: Edges)
    requires Greedy(slots, order, edge)
    ensures Elements(order, |slots|)
  {}

  /** What an incomplete listing leaves out contains a cycle. */
  lemma StuckCycle(n: nat, order: seq<nat>, edge: Edges)
    requires Elements(order, n) && |order| < n
    requires forall v: nat :: v < n && v !in order ==> exists u: nat :: u < n && u !in order && (u, v) in edge
    ensures !Acyclic(n, edge)
  {
    var left := set v: nat | v in Below(n) && v !in order;
    if left == {} {
      SizeOfDistinct(order);
      assert Below(n) <= Done(order);
      SubsetSize(Below(n), Done(order));
    }
    forall v | v in left ensures v < n && FedFrom(left, edge, v) {
      var u: nat :| u < n && u !in order && (u, v) in edge;
      assert u in left;
    }
    StuckMeansCycle(left, n, edge);
  }

  // ----- consequences -----

  ghost function Identity(n: nat): seq<nat> {
    seq(n, i requires 0 <= i => i)
  }

  /** In a good listing every parent edge points forward. */
  lemma ParentEdgesForward(slots: seq<ModuleSlot>, base: map<string, int>, i: nat, j: nat)
    requires GoodSlots(slots, base) && i < |slots| && j < |slots| && ParentEdge(slots, i, j)
    ensures i < j
  {
    NearestIsNearest(slots[j].key, Keys(slots));
    AncestorsFirst(slots, base, i, j);
  }

  /** Without explicit dependencies the listing is already in order, and stays as it is. */
  lemma NoDependsNoChange(slots: seq<ModuleSlot>, base: map<string, int>, tree: map<string, ModuleConfig>,
                          sorted: seq<ModuleSlot>, order: seq<nat>)
    requires GoodSlots(slots, base) && forall i, k :: 0 <= i < |slots| ==> !DependsOn(slots[i].key, tree, k)
    requires Reordered(sorted, slots, order)
    requires forall other :: Topological(other, |slots|, DependencyEdges(slots, tree)) ==> LexAtMost(slots, order, other)
    ensures Topological(Identity(|slots|), |slots|, DependencyEdges(slots, tree))
    ensures sorted == slots
  {
    hide GoodSlots, NearestIn, Keys;
    var id, edge := Identity(|slots|), DependencyEdges(slots, tree);
    forall i, j | 0 <= i < |slots| && 0 <= j < |slots| && (i, j) in edge ensures i < j {
      ParentEdgesForward(slots, base, i, j);
    }
    assert Topological(id, |slots|, edge);
    assert LexAtMost(slots, order, id);
    if order != id {
      var i :| 0 <= i < |order| && order[..i] == id[..i] && Precedes(slots, order[i], id[i]);
      FreshEntry(order, i, order[i]);
      SortedNotBefore(slots, base, i, order[i]);
    }
  }

  /** After the first i numbers, a new entry is at least i. */
  lemma FreshEntry(order: seq<nat>, i: nat, x: nat)
    requires i < |order| && order[..i] == Identity(|order|)[..i] && order[i] == x
    requires forall m :: 0 <= m < i ==> order[m] != order[i]
    ensures x >= i
  {
    if x < i { EntryIs(order, i, x); }
  }

  lemma EntryIs(order: seq<nat>, i: nat, m: nat)
    requires m < i <= |order| && order[..i] == Identity(|order|)[..i]
    ensures order[m] == m
  {
    assert order[m] == order[..i][m];
  }

  lemma SortedNotBefore(slots: seq<ModuleSlot>, base: map<string, int>, i: nat, j: nat)
    requires GoodSlots(slots, base) && i <= j < |slots|
    ensures !Precedes(slots, j, i)
  {
    hide GoodSlots, SlotRank, SortedBy;
    ListedSorted(slots, base);
    ListingOrder(slots);
  }

  lemma ListedSorted(slots: seq<ModuleSlot>, base: map<string, int>)
    requires GoodSlots(slots, base)
    ensures SortedBy(slots, SlotRank)
  {
    hide SortedBy, SlotRank;
  }

  /** Ancestors come first in every topological order, through nearest listed ancestors. */
  lemma {:induction false} AncestorBefore(slots: seq<ModuleSlot>, tree: map<string, ModuleConfig>, order: seq<nat>, i: nat, j: nat)
    requires DistinctKeys(slots) && Topological(order, |slots|, DependencyEdges(slots, tree))
    requires i < |slots| && j < |slots| && Ancestor(slots[order[i]].key, slots[order[j]].key)
    ensures i < j
    decreases |slots[order[j]].key|
  {
    hide NearestIn, Ancestor;
    var a, key := slots[order[i]].key, slots[order[j]].key;
    assert a in Keys(slots);
    NearestIsNearest(key, Keys(slots));
    var b := NearestIn(key, Keys(slots)).value;
    var s :| s in slots && s.key == b;
    var m :| 0 <= m < |slots| && slots[m] == s;
    var p := PositionOf(order, |slots|, m);
    assert (order[p], order[j]) in DependencyEdges(slots, tree);
    AncestorIsDottedPrefix(b, key);
    if a == b {
      SameSlot(slots, order[i], m);
    } else {
      AncestorBefore(slots, tree, order, i, p);
    }
  }

  /** Parents come before children whether or not the dependencies could be ordered. */
  lemma ParentsFirst(slots: seq<ModuleSlot>, base: map<string, int>, tree: map<string, ModuleConfig>,
                     sorted: seq<ModuleSlot>, ok: bool, order: seq<nat>, i: nat, j: nat)
    requires GoodSlots(slots, base)
    requires if ok then Reordered(sorted, slots, order) && Topological(order, |slots|, DependencyEdges(slots, tree))
             else sorted == slots
    requires i < |sorted| && j < |sorted| && Ancestor(sorted[i].key, sorted[j].key)
    ensures i < j
  {
    if ok {
      AncestorBefore(slots, tree, order, i, j);
    } else {
      AncestorsFirst(slots, base, i, j);
    }
  }

  /** A module comes after everything listed that it depends on, when the order succeeded. */
  lemma DependsFirst(slots: seq<ModuleSlot>, tree: map<string, ModuleConfig>, sorted: seq<ModuleSlot>, order: seq<nat>,
                     i: nat, j: nat)
    requires Reordered(sorted, slots, order) && Topological(order, |slots|, DependencyEdges(slots, tree))
    requires i < |sorted| && j < |sorted| && DependsOn(sorted[j].key, tree, sorted[i].key)
    ensures i < j
  {
    assert (order[i], order[j]) in DependencyEdges(slots, tree);
  }
}
