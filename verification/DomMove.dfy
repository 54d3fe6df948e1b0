/** Moving subtrees inside a document. */
module DomMove {
  import opened Wrappers
  import opened DomTree

  /** Parents have smaller ranks than their children, so following parents ends. */
  ghost predicate Ranked(h: Heap, rank: seq<nat>) {
    |rank| == |h| && forall n: nat :: n < |h| && h[n].parent != NULL ==> 0 <= h[n].parent < |h| && rank[h[n].parent] < rank[n]
  }

  /** n is a or a descendant of a. */
  ghost predicate Under(h: Heap, rank: seq<nat>, n: nat, a: nat)
    requires Ranked(h, rank) && n < |h|
    decreases rank[n]
  {
    n == a || (h[n].parent != NULL && Under(h, rank, h[n].parent, a))
  }

  /** The node that following parents ends at. */
  ghost function Top(h: Heap, rank: seq<nat>, n: nat): (t: nat)
    requires Ranked(h, rank) && n < |h|
    ensures t < |h| && h[t].parent == NULL && Under(h, rank, n, t)
    decreases rank[n]
  {
    if h[n].parent == NULL then n else Top(h, rank, h[n].parent)
  }

  /** The ranks only show that parents end; what is under what does not depend on them. */
  lemma {:induction false} UnderSame(h: Heap, rank: seq<nat>, rank': seq<nat>, n: nat, a: nat)
    requires Ranked(h, rank) && Ranked(h, rank') && n < |h|
    ensures Under(h, rank, n, a) == Under(h, rank', n, a)
    ensures Top(h, rank, n) == Top(h, rank', n)
    decreases rank[n]
  {
    if h[n].parent != NULL {
      UnderSame(h, rank, rank', h[n].parent, a);
    }
  }

  predicate AllowInsertChild(parent: Kind, child: Kind) {
    && (parent == DocumentNode || parent == ElementNode)
    && child != DocumentNode && child != NullNode
    && (parent == DocumentNode || (child != DeclarationNode && child != DoctypeNode))
  }

  /** Which kinds of children a node of each kind takes. */
  ghost predicate Accepts(parent: Kind, child: Kind) {
    match parent
    case ElementNode => child !in {DocumentNode, NullNode, DeclarationNode, DoctypeNode}
    case DocumentNode => child !in {DocumentNode, NullNode}
    case _ => false
  }

  method TopOf(h: Heap, n: nat, ghost rank: seq<nat>) returns (t: nat)
    requires Ranked(h, rank) && n < |h|
    ensures t == Top(h, rank, n)
  {
    t := n;
    while h[t].parent != NULL
      invariant t < |h| && Top(h, rank, t) == Top(h, rank, n)
      decreases rank[t]
    {
      t := h[t].parent;
    }
  }

  /** child may become a child of parent: the kinds fit, both are in one document, and parent is not under child. */
  method AllowMove(h: Heap, parent: nat, child: nat, ghost rank: seq<nat>) returns (allowed: bool)
    requires Ranked(h, rank) && parent < |h| && child < |h|
    ensures allowed <==> Accepts(h[parent].kind, h[child].kind) && Top(h, rank, parent) == Top(h, rank, child)
                         && !Under(h, rank, parent, child)
  {
    if !AllowInsertChild(h[parent].kind, h[child].kind) {
      return false;
    }
    var a := TopOf(h, parent, rank);
    var b := TopOf(h, child, rank);
    if a != b {
      return false;
    }
    var cur: nat := parent;
    while true
      invariant cur < |h| && Under(h, rank, parent, child) == Under(h, rank, cur, child)
      decreases rank[cur]
    {
      if cur == child {
        return false;
      }
      if h[cur].parent == NULL {
        return true;
      }
      cur := h[cur].parent;
    }
  }

  // ----- the tree after a move -----

  /** Only moved changes its parent, to target. */
  ghost predicate Reparented(h: Heap, h': Heap, moved: nat, target: nat) {
    && |h'| == |h| && moved < |h| && target < |h| && h'[moved].parent == target
    && (forall n: nat :: n < |h| && n != moved ==> h'[n].parent == h[n].parent)
    && (forall n: nat :: n < |h| ==> h'[n].kind == h[n].kind && h'[n].content == h[n].content)
  }

  ghost function MovedRank(h: Heap, rank: seq<nat>, moved: nat, target: nat): (r: seq<nat>)
    requires Ranked(h, rank) && target < |h|
    ensures |r| == |h|
    ensures forall n: nat :: n < |h| ==> r[n] == if Under(h, rank, n, moved) then rank[n] + rank[target] + 1 else rank[n]
  {
    seq(|h|, n requires 0 <= n < |h| => if Under(h, rank, n, moved) then rank[n] + rank[target] + 1 else rank[n])
  }

  /** A move to a target that is not under the moved node leaves no cycle. */
  lemma MoveRanked(h: Heap, h': Heap, rank: seq<nat>, moved: nat, target: nat)
    requires Ranked(h, rank) && Reparented(h, h', moved, target) && !Under(h, rank, target, moved)
    ensures Ranked(h', MovedRank(h, rank, moved, target))
  {
    var r := MovedRank(h, rank, moved, target);
    forall n: nat | n < |h'| && h'[n].parent != NULL ensures 0 <= h'[n].parent < |h'| && r[h'[n].parent] < r[n] {
      if n != moved {
        assert Under(h, rank, n, moved) <==> Under(h, rank, h[n].parent, moved);
      }
    }
  }

  /** Every node still belongs to the document it belonged to. */
  lemma {:induction false} MoveTop(h: Heap, h': Heap, rank: seq<nat>, rank': seq<nat>, moved: nat, target: nat, n: nat)
    requires Ranked(h, rank) && Ranked(h', rank') && Reparented(h, h', moved, target) && n < |h|
    requires !Under(h, rank, target, moved) && Top(h, rank, target) == Top(h, rank, moved)
    ensures Top(h', rank', n) == Top(h, rank, n)
    decreases rank'[n]
  {
    if n == moved {
      MoveTop(h, h', rank, rank', moved, target, target);
    } else if h[n].parent != NULL {
      MoveTop(h, h', rank, rank', moved, target, h[n].parent);
    }
  }

  /** A node's parent is the node whose list it is in. */
  lemma ParentByList(h: Heap, kids: seq<seq<nat>>, n: nat, q: nat)
    requires Linked(h, kids) && n < |h| && q < |h|
    ensures h[n].parent == q <==> n in kids[q]
  {
    assert ParentLinks(h, kids, n);
    if n in kids[q] {
      KidParent(h, kids, q, n);
    }
  }

  /** Lists that agree except on moved give equal parents to all other nodes. */
  lemma SameParent(h: Heap, kids: seq<seq<nat>>, h': Heap, kids': seq<seq<nat>>, n: nat)
    requires Linked(h, kids) && Linked(h', kids') && |h'| == |h| && n < |h|
    requires forall q: nat :: q < |h| ==> (n in kids'[q] <==> n in kids[q])
    ensures h'[n].parent == h[n].parent
  {
    hide Linked;
    ListOf(h, kids, n);
    ListOf(h', kids', n);
    if h[n].parent != NULL {
      ParentByList(h, kids, n, h[n].parent);
      ParentByList(h', kids', n, h[n].parent);
    }
    if h'[n].parent != NULL {
      ParentByList(h', kids', n, h'[n].parent);
      ParentByList(h, kids, n, h'[n].parent);
    }
  }

  /** The lists after moved was taken from place i of list p. */
  ghost function TakenFrom(kids: seq<seq<nat>>, p: nat, i: nat): seq<seq<nat>>
    requires p < |kids| && i < |kids[p]|
  {
    kids[p := Without(kids[p], i)]
  }

  /** A removal and an insertion of the same node together reparent it. */
  lemma MoveReparents(h: Heap, kids: seq<seq<nat>>, h1: Heap, h2: Heap, p: nat, i: nat, target: nat, j: nat, moved: nat)
    requires Linked(h, kids) && p < |h| == |kids| && i < |kids[p]| && moved == kids[p][i] && target < |h|
    requires Linked(h1, TakenFrom(kids, p, i)) && OnlyList(h, h1, p, kids[p], Without(kids[p], i))
    requires j <= |TakenFrom(kids, p, i)[target]|
    requires var w := TakenFrom(kids, p, i); var t := Insert(w[target], j, moved);
             Linked(h2, w[target := t]) && OnlyList(h1, h2, target, w[target], t)
    ensures Reparented(h, h2, moved, target)
  {
    hide Linked, OnlyList, Insert, Without;
    var w := TakenFrom(kids, p, i);
    var t := Insert(w[target], j, moved);
    var kids2 := w[target := t];
    SameSize(h, h1, p, kids[p], w[p]);
    SameSize(h1, h2, target, w[target], t);
    ListOf(h, kids, p);
    ListDistinct(h, p, kids[p]);
    RemoveMembers(kids[p], i);
    InsertMembers(w[target], j, moved);
    ListDistinct(h, p, kids[p]);
    ListOf(h2, kids2, target);
    ParentByList(h2, kids2, moved, target);
    forall n: nat | n < |h| && n != moved ensures h2[n].parent == h[n].parent {
      forall q: nat | q < |h| ensures n in kids2[q] <==> n in kids[q] {}
      SameParent(h, kids, h2, kids2, n);
    }
    SameText(h, h1, p, kids[p], w[p]);
    SameText(h1, h2, target, w[target], t);
  }

  lemma SameText(h: Heap, h': Heap, p: nat, s: seq<nat>, t: seq<nat>)
    requires OnlyList(h, h', p, s, t)
    ensures |h'| == |h| && forall n: nat :: n < |h| ==> h'[n].kind == h[n].kind && h'[n].content == h[n].content
  {}

  // ----- the child lists after a move -----

  /** The list with n left out. */
  ghost function LeftOut(s: seq<nat>, n: nat): seq<nat> {
    if s == [] then [] else (if s[0] == n then [] else [s[0]]) + LeftOut(s[1..], n)
  }

  /** moved is gone from the list it was in and stands at place j of target's; all others keep their order. */
  ghost predicate ListsAfter(kids: seq<seq<nat>>, kids': seq<seq<nat>>, moved: nat, target: nat, j: nat) {
    && |kids'| == |kids| && target < |kids| && j <= |LeftOut(kids[target], moved)|
    && kids'[target] == Insert(LeftOut(kids[target], moved), j, moved)
    && forall q :: 0 <= q < |kids| && q != target ==> kids'[q] == LeftOut(kids[q], moved)
  }

  lemma {:induction false} NothingLeftOut(s: seq<nat>, n: nat)
    requires n !in s
    ensures LeftOut(s, n) == s
  {
    if s != [] {
      NothingLeftOut(s[1..], n);
    }
  }

  lemma {:induction false} OneLeftOut(s: seq<nat>, i: nat)
    requires Distinct(s) && i < |s|
    ensures LeftOut(s, s[i]) == Without(s, i)
  {
    if i == 0 {
      NothingLeftOut(s[1..], s[0]);
    } else {
      assert s[i] == s[1..][i - 1];
      OneLeftOut(s[1..], i - 1);
      assert Without(s, i) == [s[0]] + Without(s[1..], i - 1);
    }
  }

  lemma ListsMove(h: Heap, kids: seq<seq<nat>>, p: nat, i: nat, target: nat, j: nat, moved: nat)
    requires Linked(h, kids) && p < |h| == |kids| && i < |kids[p]| && moved == kids[p][i] && target < |h|
    requires j <= |TakenFrom(kids, p, i)[target]|
    ensures TakenFrom(kids, p, i)[target] == LeftOut(kids[target], moved)
    ensures var w := TakenFrom(kids, p, i);
            ListsAfter(kids, w[target := Insert(w[target], j, moved)], moved, target, j)
  {
    hide Linked, Insert, Without, LeftOut;
    forall q: nat | q < |kids| ensures TakenFrom(kids, p, i)[q] == LeftOut(kids[q], moved) {
      ListOf(h, kids, q);
      ListDistinct(h, q, kids[q]);
      if q == p {
        OneLeftOut(kids[p], i);
      } else {
        if moved in kids[q] { OtherList(h, kids, p, q, moved); }
        NothingLeftOut(kids[q], moved);
      }
    }
  }

  /** A document: linked, acyclic, and only document nodes have no parent. */
  ghost predicate IsDocument(h: Heap, kids: seq<seq<nat>>, rank: seq<nat>) {
    Linked(h, kids) && Ranked(h, rank) && forall n: nat :: n < |h| && h[n].parent == NULL ==> h[n].kind == DocumentNode
  }

  /** What a move leaves: still a document, every node in the document it was in. */
  ghost predicate MovedWell(h: Heap, rank: seq<nat>, h': Heap, kids': seq<seq<nat>>, rank': seq<nat>, moved: nat, target: nat) {
    && IsDocument(h', kids', rank') && |h'| == |h| && Ranked(h, rank) && Reparented(h, h', moved, target)
    && forall n: nat :: n < |h| ==> Top(h', rank', n) == Top(h, rank, n)
  }

  lemma MoveIsGood(h: Heap, kids: seq<seq<nat>>, rank: seq<nat>, h': Heap, kids': seq<seq<nat>>, moved: nat, target: nat)
    requires IsDocument(h, kids, rank) && Linked(h', kids') && Reparented(h, h', moved, target)
    requires !Under(h, rank, target, moved) && Top(h, rank, target) == Top(h, rank, moved)
    ensures MovedWell(h, rank, h', kids', MovedRank(h, rank, moved, target), moved, target)
  {
    hide Linked, Top, Under;
    var rank' := MovedRank(h, rank, moved, target);
    MoveRanked(h, h', rank, moved, target);
    forall n: nat | n < |h| ensures Top(h', rank', n) == Top(h, rank, n) {
      MoveTop(h, h', rank, rank', moved, target, n);
    }
  }

  /** Moves a node to the end of another node's list, if that is allowed; else nothing changes. */
  method AppendMove(tree: Tree, target: nat, moved: nat, ghost rank: seq<nat>) returns (ok: bool, ghost rank': seq<nat>)
    requires IsDocument(tree.heap, tree.kids, rank) && target < |tree.heap| && moved < |tree.heap|
    modifies tree
    ensures ok <==> old(Accepts(tree.heap[target].kind, tree.heap[moved].kind)
                        && Top(tree.heap, rank, target) == Top(tree.heap, rank, moved) && !Under(tree.heap, rank, target, moved))
    ensures !ok ==> tree.heap == old(tree.heap) && tree.kids == old(tree.kids)
    ensures ok ==> MovedWell(old(tree.heap), rank, tree.heap, tree.kids, rank', moved, target)
    ensures ok ==> tree.kids[target] != [] && tree.kids[target][|tree.kids[target]| - 1] == moved
    ensures ok ==> ListsAfter(old(tree.kids), tree.kids, moved, target, |LeftOut(old(tree.kids)[target], moved)|)
  {
    hide Linked, OnlyList, Insert, Without, Top, Under, Ranked;
    rank' := rank;
    ok := AllowMove(tree.heap, target, moved, rank);
    if !ok { return; }
    ghost var h, kids := tree.heap, tree.kids;
    HasParent(h, kids, rank, moved);
    var p, i := tree.RemoveNode(moved);
    ghost var h1, w := tree.heap, tree.kids;
    SameSize(h, h1, p, kids[p], w[p]);
    ListOf(h1, w, target);
    NotItself(h, rank, target, moved);
    tree.AppendNode(moved, target);
    MoveReparents(h, kids, h1, tree.heap, p, i, target, |w[target]|, moved);
    ListsMove(h, kids, p, i, target, |w[target]|, moved);
    MoveIsGood(h, kids, rank, tree.heap, tree.kids, moved, target);
    rank' := MovedRank(h, rank, moved, target);
    InsertMembers(w[target], |w[target]|, moved);
    assert tree.kids[target] == Insert(w[target], |w[target]|, moved);
  }

  /** Moves a node to the front of another node's list, if that is allowed. */
  method PrependMove(tree: Tree, target: nat, moved: nat, ghost rank: seq<nat>) returns (ok: bool, ghost rank': seq<nat>)
    requires IsDocument(tree.heap, tree.kids, rank) && target < |tree.heap| && moved < |tree.heap|
    modifies tree
    ensures ok <==> old(Accepts(tree.heap[target].kind, tree.heap[moved].kind)
                        && Top(tree.heap, rank, target) == Top(tree.heap, rank, moved) && !Under(tree.heap, rank, target, moved))
    ensures !ok ==> tree.heap == old(tree.heap) && tree.kids == old(tree.kids)
    ensures ok ==> MovedWell(old(tree.heap), rank, tree.heap, tree.kids, rank', moved, target)
    ensures ok ==> tree.kids[target] != [] && tree.kids[target][0] == moved
    ensures ok ==> ListsAfter(old(tree.kids), tree.kids, moved, target, 0)
  {
    hide Linked, OnlyList, Insert, Without, Top, Under, Ranked;
    rank' := rank;
    ok := AllowMove(tree.heap, target, moved, rank);
    if !ok { return; }
    ghost var h, kids := tree.heap, tree.kids;
    HasParent(h, kids, rank, moved);
    var p, i := tree.RemoveNode(moved);
    ghost var h1, w := tree.heap, tree.kids;
    SameSize(h, h1, p, kids[p], w[p]);
    ListOf(h1, w, target);
    NotItself(h, rank, target, moved);
    tree.PrependNode(moved, target);
    MoveReparents(h, kids, h1, tree.heap, p, i, target, 0, moved);
    ListsMove(h, kids, p, i, target, 0, moved);
    MoveIsGood(h, kids, rank, tree.heap, tree.kids, moved, target);
    rank' := MovedRank(h, rank, moved, target);
    InsertMembers(w[target], 0, moved);
    assert tree.kids[target] == Insert(w[target], 0, moved);
  }

  lemma HasParent(h: Heap, kids: seq<seq<nat>>, rank: seq<nat>, n: nat)
    requires IsDocument(h, kids, rank) && n < |h| && h[n].kind != DocumentNode
    ensures h[n].parent != NULL && Linked(h, kids)
  {}

  lemma NotItself(h: Heap, rank: seq<nat>, target: nat, moved: nat)
    requires Ranked(h, rank) && target < |h| && !Under(h, rank, target, moved)
    ensures moved != target
  {}

  /** Moves a node right behind a child of target. */
  method InsertMoveAfter(tree: Tree, target: nat, moved: nat, node: nat, ghost rank: seq<nat>)
    returns (ok: bool, ghost rank': seq<nat>, ghost j: nat)
    requires IsDocument(tree.heap, tree.kids, rank) && target < |tree.heap| && moved < |tree.heap| && node < |tree.heap|
    modifies tree
    ensures ok <==> old(Accepts(tree.heap[target].kind, tree.heap[moved].kind)
                        && Top(tree.heap, rank, target) == Top(tree.heap, rank, moved) && !Under(tree.heap, rank, target, moved)
                        && tree.heap[node].parent == target && moved != node)
    ensures !ok ==> tree.heap == old(tree.heap) && tree.kids == old(tree.kids)
    ensures ok ==> MovedWell(old(tree.heap), rank, tree.heap, tree.kids, rank', moved, target)
    ensures ok ==> tree.heap[node].next == moved
    ensures ok ==> ListsAfter(old(tree.kids), tree.kids, moved, target, j + 1)
                   && LeftOut(old(tree.kids)[target], moved)[j] == node
  {
    hide Linked, OnlyList, Insert, Without, Top, Under, Ranked;
    rank', j := rank, 0;
    ok := AllowMove(tree.heap, target, moved, rank);
    if !ok { return; }
    if tree.heap[node].parent != target || moved == node {
      ok := false;
      return;
    }
    ghost var h, kids := tree.heap, tree.kids;
    HasParent(h, kids, rank, moved);
    var p, i := tree.RemoveNode(moved);
    ghost var h1, w := tree.heap, tree.kids;
    SameSize(h, h1, p, kids[p], w[p]);
    ListOf(h1, w, target);
    NotItself(h, rank, target, moved);
    StillChild(h, kids, h1, p, i, node, target);
    var q, at := tree.InsertNodeAfter(moved, node);
    MoveReparents(h, kids, h1, tree.heap, p, i, target, at + 1, moved);
    ListsMove(h, kids, p, i, target, at + 1, moved);
    MoveIsGood(h, kids, rank, tree.heap, tree.kids, moved, target);
    rank' := MovedRank(h, rank, moved, target);
    j := at;
    InsertMembers(w[target], j + 1, moved);
    assert tree.kids[target] == Insert(w[target], j + 1, moved);
    KidAt(tree.heap, tree.kids, target, j);
  }

  /** Moves a node right in front of a child of target. */
  method InsertMoveBefore(tree: Tree, target: nat, moved: nat, node: nat, ghost rank: seq<nat>)
    returns (ok: bool, ghost rank': seq<nat>, ghost j: nat)
    requires IsDocument(tree.heap, tree.kids, rank) && target < |tree.heap| && moved < |tree.heap| && node < |tree.heap|
    modifies tree
    ensures ok <==> old(Accepts(tree.heap[target].kind, tree.heap[moved].kind)
                        && Top(tree.heap, rank, target) == Top(tree.heap, rank, moved) && !Under(tree.heap, rank, target, moved)
                        && tree.heap[node].parent == target && moved != node)
    ensures !ok ==> tree.heap == old(tree.heap) && tree.kids == old(tree.kids)
    ensures ok ==> MovedWell(old(tree.heap), rank, tree.heap, tree.kids, rank', moved, target)
    ensures ok ==> tree.heap[moved].next == node
    ensures ok ==> ListsAfter(old(tree.kids), tree.kids, moved, target, j)
                   && j < |LeftOut(old(tree.kids)[target], moved)| && LeftOut(old(tree.kids)[target], moved)[j] == node
  {
    hide Linked, OnlyList, Insert, Without, Top, Under, Ranked;
    rank', j := rank, 0;
    ok := AllowMove(tree.heap, target, moved, rank);
    if !ok { return; }
    if tree.heap[node].parent != target || moved == node {
      ok := false;
      return;
    }
    ghost var h, kids := tree.heap, tree.kids;
    HasParent(h, kids, rank, moved);
    var p, i := tree.RemoveNode(moved);
    ghost var h1, w := tree.heap, tree.kids;
    SameSize(h, h1, p, kids[p], w[p]);
    ListOf(h1, w, target);
    NotItself(h, rank, target, moved);
    StillChild(h, kids, h1, p, i, node, target);
    var q, at := tree.InsertNodeBefore(moved, node);
    MoveReparents(h, kids, h1, tree.heap, p, i, target, at, moved);
    ListsMove(h, kids, p, i, target, at, moved);
    MoveIsGood(h, kids, rank, tree.heap, tree.kids, moved, target);
    rank' := MovedRank(h, rank, moved, target);
    j := at;
    InsertMembers(w[target], j, moved);
    assert tree.kids[target] == Insert(w[target], j, moved);
    KidAt(tree.heap, tree.kids, target, j);
  }

  /** Taking out another node does not change a node's parent. */
  lemma StillChild(h: Heap, kids: seq<seq<nat>>, h1: Heap, p: nat, i: nat, node: nat, target: nat)
    requires Linked(h, kids) && p < |h| == |kids| == |h1| && i < |kids[p]| && Linked(h1, TakenFrom(kids, p, i))
    requires node < |h| && target < |h| && h[node].parent == target && kids[p][i] != node
    ensures h1[node].parent == target
  {
    hide Linked, Without;
    ListOf(h, kids, p);
    ListDistinct(h, p, kids[p]);
    RemoveMembers(kids[p], i);
    ParentByList(h, kids, node, target);
    ParentByList(h1, TakenFrom(kids, p, i), node, target);
  }
}
